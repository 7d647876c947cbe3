/**
 * The upload-to-github publisher. It lists the day's objects under
 * `news/{today}/`, downloads each one, re-roots its key to `{today}/{name}`,
 * and publishes all files in a single commit: read the branch head, read its
 * tree, create a tree with the files laid over it, create a commit whose only
 * parent is the head, and move the branch to it without forcing.
 *
 * The object store is given as its listing pages and its downloads; the Git
 * host is a `GitHost` object whose calls each take a flag saying whether the
 * host fails that call.
 */
module Publisher {
  import opened Wrappers
  import opened Text
  import opened Gateway
  import StoreUpload

  /** Listing prefix of one day: `news/{today}/`. */
  function ListPrefix(today: string): (prefix: string)
    ensures |prefix| == |today| + 6
    ensures HasPrefix(prefix, "news/") && prefix[5..|today| + 5] == today && prefix[|today| + 5] == '/'
  {
    "news/" + today + "/"
  }

  /** Commit message of one day. */
  function CommitMessage(today: string): (message: string)
    ensures |message| == |"Add: 오늘의 기사 추가("| + |today| + 1
    ensures HasPrefix(message, "Add: 오늘의 기사 추가(") && message[|"Add: 오늘의 기사 추가("|..|message| - 1] == today
    ensures message[|message| - 1] == ')'
  {
    "Add: 오늘의 기사 추가(" + today + ")"
  }

  /**
   * A file name that `path.Join` keeps as it is: no separator, and neither
   * `.` nor `..`, which path cleaning would resolve.
   */
  predicate PlainName(name: string)
  {
    '/' !in name && name != "." && name != ".."
  }

  /** `path.Join(dir, name)` for a clean `dir` and a plain file name: an empty name leaves `dir`. */
  function JoinPath(dir: string, name: string): string
  {
    if name == "" then dir else dir + "/" + name
  }

  /** The repository path of an object key: `path.Join(today, strings.TrimPrefix(key, prefix))`. */
  function RepoPath(today: string, key: string): string
  {
    JoinPath(today, TrimPrefix(key, ListPrefix(today)))
  }

  /** A listed key `news/{today}/{name}` is published as `{today}/{name}`. */
  lemma RepoPathOfListedKey(today: string, name: string)
    requires name != "" && PlainName(name)
    ensures RepoPath(today, ListPrefix(today) + name) == today + "/" + name
  {
    var key := ListPrefix(today) + name;
    assert key[..|ListPrefix(today)|] == ListPrefix(today);
    assert key[|ListPrefix(today)|..] == name;
  }

  /** An object stored by upload-to-s3 today lands at `{today}/{today}_{category}.md`. */
  lemma RepoPathOfStoredObject(today: string, category: string)
    requires '/' !in today && '/' !in category
    ensures RepoPath(today, StoreUpload.ObjectKey(today, category)) == today + "/" + today + "_" + category + ".md"
  {
    var name := today + "_" + category + ".md";
    assert StoreUpload.ObjectKey(today, category) == ListPrefix(today) + name;
    RepoPathOfListedKey(today, name);
  }

  /** Two keys under the day's prefix, each naming a plain file, never share a repository path. */
  lemma RepoPathInjective(today: string, k1: string, k2: string)
    requires HasPrefix(k1, ListPrefix(today)) && HasPrefix(k2, ListPrefix(today))
    requires PlainName(TrimPrefix(k1, ListPrefix(today))) && PlainName(TrimPrefix(k2, ListPrefix(today)))
    requires RepoPath(today, k1) == RepoPath(today, k2)
    ensures k1 == k2
  {
    var p := ListPrefix(today);
    var n1, n2 := TrimPrefix(k1, p), TrimPrefix(k2, p);
    if n1 != "" && n2 != "" {
      assert n1 == (today + "/" + n1)[|today| + 1..];
      assert n2 == (today + "/" + n2)[|today| + 1..];
    }
  }

  /** The day can be read back from both the listing prefix and the commit message. */
  lemma DayDeterminesPrefixAndMessage(d1: string, d2: string)
    ensures ListPrefix(d1) == ListPrefix(d2) <==> d1 == d2
    ensures CommitMessage(d1) == CommitMessage(d2) <==> d1 == d2
  {
    if ListPrefix(d1) == ListPrefix(d2) {
      assert d1 == ListPrefix(d1)[5..|d1| + 5];
    }
    if CommitMessage(d1) == CommitMessage(d2) {
      var m := CommitMessage(d1);
      assert d1 == m[|"Add: 오늘의 기사 추가("|..|m| - 1];
    }
  }

  /** One `NextPage` call: the keys of the page, or the error of the request. */
  type Page = Result<seq<string>, string>

  /** Every page request succeeded. */
  predicate AllListed(pages: seq<Page>)
  {
    forall i :: 0 <= i < |pages| ==> pages[i].Ok?
  }

  /** The keys of all pages, page after page. */
  function Keys(pages: seq<Page>): seq<string>
    requires AllListed(pages)
    decreases |pages|
  {
    if pages == [] then []
    else
      var n := |pages| - 1;
      Keys(pages[..n]) + pages[n].value
  }

  function ListError(e: string): string
  {
    "failed to list files: " + e
  }

  /** The listing of two runs of pages is the listing of the first followed by that of the second. */
  lemma {:induction false} KeysAppend(p: seq<Page>, q: seq<Page>)
    requires AllListed(p) && AllListed(q)
    ensures AllListed(p + q)
    ensures Keys(p + q) == Keys(p) + Keys(q)
    decreases |q|
  {
    if q == [] {
      assert p + q == p;
    } else {
      var n := |q| - 1;
      assert (p + q)[..|p| + n] == p + q[..n];
      KeysAppend(p, q[..n]);
    }
  }

  /** A key is listed exactly when some page holds it. */
  lemma {:induction false} KeysMembers(pages: seq<Page>, key: string)
    requires AllListed(pages)
    ensures key in Keys(pages) <==> exists i :: 0 <= i < |pages| && key in pages[i].value
    decreases |pages|
  {
    if pages != [] {
      var n := |pages| - 1;
      KeysMembers(pages[..n], key);
      assert forall i :: 0 <= i < n ==> pages[..n][i] == pages[i];
    }
  }

  /** `ListFiles`: the keys of all pages in order, or the error of the first page that fails. */
  method ListFiles(pages: seq<Page>) returns (r: Result<seq<string>, string>)
    ensures r.Ok? <==> AllListed(pages)
    ensures r.Ok? ==> r.value == Keys(pages)
    ensures r.Err? ==> exists i :: 0 <= i < |pages| && pages[i].Err? && AllListed(pages[..i]) && r.error == ListError(pages[i].error)
  {
    var files: seq<string> := [];
    var i := 0;
    while i < |pages|
      invariant i <= |pages|
      invariant AllListed(pages[..i])
      invariant files == Keys(pages[..i])
    {
      if pages[i].Err? {
        return Err(ListError(pages[i].error));
      }
      assert pages[..i + 1][..i] == pages[..i];
      files := files + pages[i].value;
      i := i + 1;
    }
    assert pages[..i] == pages;
    r := Ok(files);
  }

  /** The files to publish after downloading `keys`: path to content, a failed download skipped. */
  function Collected(keys: seq<string>, downloads: map<string, Bytes>, today: string): map<string, Bytes>
    decreases |keys|
  {
    if keys == [] then map[]
    else
      var n := |keys| - 1;
      var prev := Collected(keys[..n], downloads, today);
      if keys[n] in downloads then prev[RepoPath(today, keys[n]) := downloads[keys[n]]] else prev
  }

  /**
   * The download loop of `Handler`. `downloads` holds what `DownloadFile`
   * returns for each key it succeeds on; a key not in it failed.
   */
  method CollectFiles(keys: seq<string>, downloads: map<string, Bytes>, today: string) returns (files: map<string, Bytes>)
    ensures files == Collected(keys, downloads, today)
  {
    files := map[];
    for i := 0 to |keys|
      invariant files == Collected(keys[..i], downloads, today)
    {
      assert keys[..i + 1][..i] == keys[..i];
      if keys[i] !in downloads {
        continue;
      }
      files := files[RepoPath(today, keys[i]) := downloads[keys[i]]];
    }
    assert keys[..|keys|] == keys;
  }

  /** The published paths are exactly the paths of the keys that downloaded. */
  lemma {:induction false} CollectedDomain(keys: seq<string>, downloads: map<string, Bytes>, today: string, p: string)
    ensures p in Collected(keys, downloads, today)
            <==> exists k :: k in keys && k in downloads && RepoPath(today, k) == p
    decreases |keys|
  {
    if keys != [] {
      var n := |keys| - 1;
      CollectedDomain(keys[..n], downloads, today, p);
      assert keys == keys[..n] + [keys[n]];
    }
  }

  /**
   * With every key a plain file under the day's prefix, each downloaded key's
   * content sits at its own path: one entry per downloaded key, whatever
   * failed around it.
   */
  lemma {:induction false} CollectedValues(keys: seq<string>, downloads: map<string, Bytes>, today: string)
    requires forall k :: k in keys ==> HasPrefix(k, ListPrefix(today)) && PlainName(TrimPrefix(k, ListPrefix(today)))
    ensures forall k :: k in keys && k in downloads ==>
              RepoPath(today, k) in Collected(keys, downloads, today)
              && Collected(keys, downloads, today)[RepoPath(today, k)] == downloads[k]
    decreases |keys|
  {
    if keys != [] {
      var n := |keys| - 1;
      var prefix := keys[..n];
      assert forall k :: k in prefix ==> k in keys;
      CollectedValues(prefix, downloads, today);
      forall k | k in keys && k in downloads
        ensures RepoPath(today, k) in Collected(keys, downloads, today)
        ensures Collected(keys, downloads, today)[RepoPath(today, k)] == downloads[k]
      {
        CollectedValuesStep(keys, downloads, today, k);
      }
    }
  }

  /** `CollectedValues` for one key, given that it holds for the keys before the last. */
  lemma CollectedValuesStep(keys: seq<string>, downloads: map<string, Bytes>, today: string, k: string)
    requires keys != [] && k in keys && k in downloads
    requires forall k :: k in keys ==> HasPrefix(k, ListPrefix(today)) && PlainName(TrimPrefix(k, ListPrefix(today)))
    requires var prefix := keys[..|keys| - 1];
             k in prefix ==> RepoPath(today, k) in Collected(prefix, downloads, today)
                             && Collected(prefix, downloads, today)[RepoPath(today, k)] == downloads[k]
    ensures RepoPath(today, k) in Collected(keys, downloads, today)
    ensures Collected(keys, downloads, today)[RepoPath(today, k)] == downloads[k]
  {
    var n := |keys| - 1;
    if k != keys[n] {
      assert k in keys[..n] by {
        var j :| 0 <= j < |keys| && keys[j] == k;
        assert j < n && keys[..n][j] == k;
      }
      if keys[n] in downloads && RepoPath(today, keys[n]) == RepoPath(today, k) {
        RepoPathInjective(today, keys[n], k);
      }
    }
  }

  /** One `github.TreeEntry`: path, object type, mode and content. */
  datatype Entry = Entry(path: string, kind: string, mode: string, content: Bytes)

  const BlobKind := "blob"
  const RegularFileMode := "100644"

  /** `entries` has one regular-file blob per file, with the file's content, and no path twice. */
  ghost predicate EntriesFor(entries: seq<Entry>, files: map<string, Bytes>)
  {
    && (forall i :: 0 <= i < |entries| ==>
          entries[i].path in files && entries[i] == Entry(entries[i].path, BlobKind, RegularFileMode, files[entries[i].path]))
    && (forall p :: p in files ==> exists i :: 0 <= i < |entries| && entries[i].path == p)
    && (forall i, j :: 0 <= i < j < |entries| ==> entries[i].path != entries[j].path)
  }

  /** The entry loop of `UploadFiles`, visiting the map in some order. */
  method BuildEntries(files: map<string, Bytes>) returns (entries: seq<Entry>)
    ensures EntriesFor(entries, files)
    ensures |entries| == |files|
  {
    entries := [];
    var pending := files.Keys;
    while pending != {}
      invariant pending <= files.Keys
      invariant forall i :: 0 <= i < |entries| ==>
                  entries[i].path in files && entries[i].path !in pending
                  && entries[i] == Entry(entries[i].path, BlobKind, RegularFileMode, files[entries[i].path])
      invariant forall p :: p in files && p !in pending ==> exists i :: 0 <= i < |entries| && entries[i].path == p
      invariant forall i, j :: 0 <= i < j < |entries| ==> entries[i].path != entries[j].path
      invariant |entries| + |pending| == |files|
      decreases pending
    {
      var p :| p in pending;
      ghost var before := entries;
      entries := entries + [Entry(p, BlobKind, RegularFileMode, files[p])];
      assert forall i :: 0 <= i < |before| ==> entries[i] == before[i];
      assert entries[|before|].path == p;
      pending := pending - {p};
    }
  }

  /** A flattened Git tree: path to blob content. */
  type Tree = map<string, Bytes>

  /** The tree `CreateTree` builds over `base`: each entry sets its path. */
  function ApplyEntries(base: Tree, entries: seq<Entry>): Tree
    decreases |entries|
  {
    if entries == [] then base
    else
      var n := |entries| - 1;
      ApplyEntries(base, entries[..n])[entries[n].path := entries[n].content]
  }

  /** `files` laid over `tree`: their paths take their content, every other path is kept. */
  function Overlay(tree: Tree, files: map<string, Bytes>): (r: Tree)
    ensures r.Keys == tree.Keys + files.Keys
    ensures forall p :: p in files ==> r[p] == files[p]
    ensures forall p :: p in tree && p !in files ==> r[p] == tree[p]
  {
    map p | p in tree.Keys + files.Keys :: if p in files then files[p] else tree[p]
  }

  /** With distinct paths, each entry's content is found at its path and other paths keep the base. */
  lemma {:induction false} ApplyEntriesLookup(base: Tree, entries: seq<Entry>)
    requires forall i, j :: 0 <= i < j < |entries| ==> entries[i].path != entries[j].path
    ensures forall i :: 0 <= i < |entries| ==>
              entries[i].path in ApplyEntries(base, entries) && ApplyEntries(base, entries)[entries[i].path] == entries[i].content
    ensures forall p :: p in ApplyEntries(base, entries) <==> p in base || exists i :: 0 <= i < |entries| && entries[i].path == p
    ensures forall p :: p in base && (forall i :: 0 <= i < |entries| ==> entries[i].path != p) ==> ApplyEntries(base, entries)[p] == base[p]
    decreases |entries|
  {
    if entries != [] {
      var n := |entries| - 1;
      var prev := entries[..n];
      ApplyEntriesLookup(base, prev);
      assert forall i :: 0 <= i < n ==> prev[i] == entries[i];
    }
  }

  /** The tree created from the entries of `files` is `files` laid over the base tree. */
  lemma EntriesOverlay(base: Tree, entries: seq<Entry>, files: map<string, Bytes>)
    requires EntriesFor(entries, files)
    ensures ApplyEntries(base, entries) == Overlay(base, files)
  {
    var r, o := ApplyEntries(base, entries), Overlay(base, files);
    forall p
      ensures (p in r <==> p in o) && (p in r ==> r[p] == o[p])
    {
      EntriesOverlayAt(base, entries, files, p);
    }
    assert r.Keys == o.Keys;
  }

  /** `EntriesOverlay` at one path. */
  lemma EntriesOverlayAt(base: Tree, entries: seq<Entry>, files: map<string, Bytes>, p: string)
    requires EntriesFor(entries, files)
    ensures p in ApplyEntries(base, entries) <==> p in Overlay(base, files)
    ensures p in ApplyEntries(base, entries) ==> ApplyEntries(base, entries)[p] == Overlay(base, files)[p]
  {
    ApplyEntriesLookup(base, entries);
    if p in files {
      var i :| 0 <= i < |entries| && entries[i].path == p;
      assert ApplyEntries(base, entries)[p] == entries[i].content == files[p];
    } else {
      assert forall i :: 0 <= i < |entries| ==> entries[i].path != p;
    }
  }

  /** A Git object id. Ids are handed out by a counter, so a new object never reuses one. */
  type Sha = nat

  datatype Commit = Commit(tree: Sha, parents: seq<Sha>, message: string)

  /** The calls of `UploadFiles`, in the order it makes them. */
  datatype Step = GetRefStep | GetTreeStep | CreateTreeStep | CreateCommitStep | UpdateRefStep

  /** Position of a call in `UploadFiles`. */
  function Order(step: Step): nat
  {
    match step
    case GetRefStep => 0
    case GetTreeStep => 1
    case CreateTreeStep => 2
    case CreateCommitStep => 3
    case UpdateRefStep => 4
  }

  /** The error of `UploadFiles`: the call that failed and the host's error text for it. */
  datatype PublishError = PublishError(step: Step, cause: string)

  /** What `UploadFiles` says when `step` fails, before the host's error text. */
  function StepMessage(step: Step): string
  {
    match step
    case GetRefStep => "failed to get HEAD reference"
    case GetTreeStep => "failed to get base tree"
    case CreateTreeStep => "failed to create tree"
    case CreateCommitStep => "failed to create commit"
    case UpdateRefStep => "failed to update HEAD reference"
  }

  /** The text of the error, `fmt.Errorf("<step>: %v", err)`. */
  function ErrorMessage(e: PublishError): string
  {
    StepMessage(e.step) + ": " + e.cause
  }

  /** The error text names the failing call and carries the host's text unchanged: different errors read differently. */
  lemma ErrorMessageInjective(e1: PublishError, e2: PublishError)
    ensures ErrorMessage(e1) == ErrorMessage(e2) <==> e1 == e2
  {
    var m1, m2 := ErrorMessage(e1), ErrorMessage(e2);
    if e1.step == e2.step {
      var n := |StepMessage(e1.step)| + 2;
      assert m1[n..] == e1.cause && m2[n..] == e2.cause;
    } else {
      StepMessagesDiffer(e1.step, e2.step);
      assert m1[..21] == StepMessage(e1.step)[..21];
      assert m2[..21] == StepMessage(e2.step)[..21];
    }
  }

  /** No two calls share the first 21 characters of their message. */
  lemma StepMessagesDiffer(s1: Step, s2: Step)
    requires s1 != s2
    ensures |StepMessage(s1)| >= 21 && |StepMessage(s2)| >= 21
    ensures StepMessage(s1)[..21] != StepMessage(s2)[..21]
  {
    var m1, m2 := StepMessage(s1)[..21], StepMessage(s2)[..21];
    assert m1[10] != m2[10] || m1[14] != m2[14] || m1[17] != m2[17];
  }

  /** The host's error text for `step` when it fails that call. */
  function FaultOf(faults: map<Step, string>, step: Step): Option<string>
  {
    if step in faults then Some(faults[step]) else None
  }

  /** The error of the first failing call, in call order; the calls after it are never made. */
  function FirstFault(faults: map<Step, string>): (e: Option<PublishError>)
    ensures e.None? <==> faults == map[]
    ensures e.Some? ==> e.value.step in faults && e.value.cause == faults[e.value.step]
    ensures e.Some? ==> forall step :: step in faults ==> Order(e.value.step) <= Order(step)
  {
    if GetRefStep in faults then Some(PublishError(GetRefStep, faults[GetRefStep]))
    else if GetTreeStep in faults then Some(PublishError(GetTreeStep, faults[GetTreeStep]))
    else if CreateTreeStep in faults then Some(PublishError(CreateTreeStep, faults[CreateTreeStep]))
    else if CreateCommitStep in faults then Some(PublishError(CreateCommitStep, faults[CreateCommitStep]))
    else if UpdateRefStep in faults then Some(PublishError(UpdateRefStep, faults[UpdateRefStep]))
    else
      StepsAreFive(faults.Keys);
      assert faults.Keys == {};
      None
  }

  /** A set of steps holds nothing but the five calls. */
  lemma StepsAreFive(steps: set<Step>)
    ensures steps <= {GetRefStep, GetTreeStep, CreateTreeStep, CreateCommitStep, UpdateRefStep}
  {
    forall s | s in steps
      ensures s in {GetRefStep, GetTreeStep, CreateTreeStep, CreateCommitStep, UpdateRefStep}
    {
      match s
      case GetRefStep =>
      case GetTreeStep =>
      case CreateTreeStep =>
      case CreateCommitStep =>
      case UpdateRefStep =>
    }
  }

  /** GitHub's answer to a reference update that is not a fast-forward. */
  const NotFastForward := "Update is not a fast forward"

  /** GitHub's answer to an id it does not know. */
  const NotFound := "Not Found"

  /**
   * The error of `UploadFiles` when the host fails the calls in `faults` and
   * `rival` says whether another writer moves the branch meanwhile: the
   * first failing call, or else the rejected update.
   */
  function UploadError(faults: map<Step, string>, rival: Option<string>): (e: Option<PublishError>)
    ensures e.None? <==> faults == map[] && rival.None?
    ensures rival.None? ==> e == FirstFault(faults)
    ensures rival.Some? && faults == map[] ==> e == Some(PublishError(UpdateRefStep, NotFastForward))
    ensures faults != map[] ==> e == FirstFault(faults)
  {
    if rival.Some? && faults == map[] then Some(PublishError(UpdateRefStep, NotFastForward)) else FirstFault(faults)
  }

  /**
   * The repository as the GitHub Git data API shows it: the `heads/main`
   * reference, the commits and the trees by id.
   */
  class GitHost {
    var head: Sha
    var commits: map<Sha, Commit>
    var trees: map<Sha, Tree>
    var nextSha: Sha

    /** The head is a commit, every commit's tree exists, and every id in use is below `nextSha`. */
    ghost predicate Valid()
      reads this
    {
      && head in commits
      && (forall c :: c in commits ==> c < nextSha && commits[c].tree in trees)
      && (forall t :: t in trees ==> t < nextSha)
    }

    /** A repository whose branch points at a root commit of `initial`. */
    constructor (initial: Tree, message: string)
      ensures Valid()
      ensures trees == map[0 := initial] && commits == map[1 := Commit(0, [], message)] && head == 1 && nextSha == 2
    {
      trees := map[0 := initial];
      commits := map[1 := Commit(0, [], message)];
      head := 1;
      nextSha := 2;
    }

    /** `Git.GetRef(heads/main)`; `fail` is the host's error text when it fails the call. */
    method GetRef(fail: Option<string>) returns (r: Result<Sha, string>)
      requires Valid()
      ensures fail.Some? ==> r == Err(fail.value)
      ensures fail.None? ==> r == Ok(head) && r.value in commits
    {
      if fail.Some? {
        return Err(fail.value);
      }
      r := Ok(head);
    }

    /** `Git.GetTree(sha, true)`: the tree of commit `sha`. */
    method GetTree(sha: Sha, fail: Option<string>) returns (r: Result<Sha, string>)
      requires Valid()
      ensures fail.Some? ==> r == Err(fail.value)
      ensures fail.None? && sha !in commits ==> r == Err(NotFound)
      ensures fail.None? && sha in commits ==> r == Ok(commits[sha].tree) && r.value in trees
    {
      if fail.Some? {
        return Err(fail.value);
      }
      if sha !in commits {
        return Err(NotFound);
      }
      r := Ok(commits[sha].tree);
    }

    /** `Git.CreateTree(base, entries)`: a new tree, the base with every entry's path set. */
    method CreateTree(base: Sha, entries: seq<Entry>, fail: Option<string>) returns (r: Result<Sha, string>)
      requires Valid()
      modifies this
      ensures Valid()
      ensures fail.Some? ==> r == Err(fail.value) && unchanged(this)
      ensures fail.None? && base !in old(trees) ==> r == Err(NotFound) && unchanged(this)
      ensures fail.None? && base in old(trees) ==>
                && r == Ok(old(nextSha))
                && trees == old(trees)[old(nextSha) := ApplyEntries(old(trees)[base], entries)]
                && head == old(head) && commits == old(commits) && nextSha == old(nextSha) + 1
    {
      if fail.Some? {
        return Err(fail.value);
      }
      if base !in trees {
        return Err(NotFound);
      }
      r := Ok(nextSha);
      trees := trees[nextSha := ApplyEntries(trees[base], entries)];
      nextSha := nextSha + 1;
    }

    /** `Git.CreateCommit`: a new commit of an existing tree with existing parents. */
    method CreateCommit(message: string, tree: Sha, parents: seq<Sha>, fail: Option<string>) returns (r: Result<Sha, string>)
      requires Valid()
      modifies this
      ensures Valid()
      ensures fail.Some? ==> r == Err(fail.value) && unchanged(this)
      ensures fail.None? && (tree !in old(trees) || (exists i :: 0 <= i < |parents| && parents[i] !in old(commits))) ==>
                r == Err(NotFound) && unchanged(this)
      ensures fail.None? && tree in old(trees) && (forall i :: 0 <= i < |parents| ==> parents[i] in old(commits)) ==>
                && r == Ok(old(nextSha))
                && commits == old(commits)[old(nextSha) := Commit(tree, parents, message)]
                && head == old(head) && trees == old(trees) && nextSha == old(nextSha) + 1
    {
      if fail.Some? {
        return Err(fail.value);
      }
      if tree !in trees || (exists i :: 0 <= i < |parents| && parents[i] !in commits) {
        return Err(NotFound);
      }
      r := Ok(nextSha);
      commits := commits[nextSha := Commit(tree, parents, message)];
      nextSha := nextSha + 1;
    }

    /**
     * `Git.UpdateRef(heads/main, sha, force)`. Without `force` the move must
     * be a fast-forward: here, the current head must be a parent of `sha`.
     */
    method UpdateRef(sha: Sha, force: bool, fail: Option<string>) returns (r: Result<Sha, string>)
      requires Valid()
      modifies this
      ensures Valid()
      ensures fail.Some? ==> r == Err(fail.value)
      ensures fail.None? && sha !in old(commits) ==> r == Err(NotFound)
      ensures fail.None? && sha in old(commits) && !force && old(head) !in old(commits)[sha].parents ==> r == Err(NotFastForward)
      ensures r.Ok? <==> fail.None? && sha in old(commits) && (force || old(head) in old(commits)[sha].parents)
      ensures r.Ok? ==> r.value == sha && head == sha
      ensures r.Err? ==> head == old(head)
      ensures commits == old(commits) && trees == old(trees) && nextSha == old(nextSha)
    {
      if fail.Some? {
        return Err(fail.value);
      }
      if sha !in commits {
        return Err(NotFound);
      }
      if !force && head !in commits[sha].parents {
        return Err(NotFastForward);
      }
      head := sha;
      r := Ok(sha);
    }

    /**
     * Another writer pushes to the branch: a commit of `message` on top of
     * the head, keeping its tree, and the branch moved to it.
     */
    method Advance(message: string)
      requires Valid()
      modifies this
      ensures Valid()
      ensures head == old(nextSha) && nextSha == old(nextSha) + 1 && trees == old(trees)
      ensures commits == old(commits)[old(nextSha) := Commit(old(commits)[old(head)].tree, [old(head)], message)]
    {
      commits := commits[nextSha := Commit(commits[head].tree, [head], message)];
      head := nextSha;
      nextSha := nextSha + 1;
    }
  }

  /** The branch of `host` points at a commit of `message` whose only parent is `parent` and whose tree is `files` over `base`. */
  ghost predicate CommittedOnto(host: GitHost, parent: Sha, base: Tree, files: map<string, Bytes>, message: string)
    reads host
  {
    && host.head in host.commits
    && host.commits[host.head].parents == [parent]
    && host.commits[host.head].message == message
    && host.commits[host.head].tree in host.trees
    && host.trees[host.commits[host.head].tree] == Overlay(base, files)
  }

  /** Every commit and tree of the old repository is still there, unchanged. */
  ghost predicate Extends(commits: map<Sha, Commit>, trees: map<Sha, Tree>, oldCommits: map<Sha, Commit>, oldTrees: map<Sha, Tree>)
  {
    && (forall c :: c in oldCommits ==> c in commits && commits[c] == oldCommits[c])
    && (forall t :: t in oldTrees ==> t in trees && trees[t] == oldTrees[t])
  }

  /** Adding a tree under an unused id keeps everything that was there. */
  lemma ExtendsByNewTree(commits: map<Sha, Commit>, trees: map<Sha, Tree>, t: Sha, tree: Tree)
    requires t !in trees
    ensures Extends(commits, trees[t := tree], commits, trees)
  {
  }

  /** Adding a commit under an unused id keeps everything that was there. */
  lemma ExtendsByNewCommit(commits: map<Sha, Commit>, trees: map<Sha, Tree>, oldTrees: map<Sha, Tree>, c: Sha, commit: Commit)
    requires c !in commits && Extends(commits, trees, commits, oldTrees)
    ensures Extends(commits[c := commit], trees, commits, oldTrees)
  {
  }

  /** Extending is transitive. */
  lemma ExtendsTransitive(c3: map<Sha, Commit>, t3: map<Sha, Tree>, c2: map<Sha, Commit>, t2: map<Sha, Tree>,
                          c1: map<Sha, Commit>, t1: map<Sha, Tree>)
    requires Extends(c3, t3, c2, t2) && Extends(c2, t2, c1, t1)
    ensures Extends(c3, t3, c1, t1)
  {
  }

  /** The branch of `host` points at another writer's commit of `message`, made on top of `parent` in `commits`. */
  ghost predicate RivalOnTop(host: GitHost, parent: Sha, commits: map<Sha, Commit>, message: string)
    reads host
  {
    && parent in commits
    && host.head !in commits
    && host.head in host.commits
    && host.commits[host.head] == Commit(commits[parent].tree, [parent], message)
  }

  /**
   * The middle of `UploadFiles`, from `GetTree` to `CreateCommit`: a commit
   * of `files` laid over the tree of `parent`, with `parent` its only
   * parent. The branch does not move.
   */
  method StageCommit(host: GitHost, parent: Sha, files: map<string, Bytes>, message: string, faults: map<Step, string>)
    returns (r: Result<Sha, PublishError>)
    requires host.Valid() && parent in host.commits && GetRefStep !in faults
    modifies host
    ensures host.Valid()
    ensures host.head == old(host.head)
    ensures Extends(host.commits, host.trees, old(host.commits), old(host.trees))
    ensures r.Err? <==> faults != map[] && FirstFault(faults).value.step != UpdateRefStep
    ensures r.Err? ==> Some(r.error) == FirstFault(faults) && host.commits == old(host.commits)
    ensures r.Ok? ==>
              && r.value !in old(host.commits)
              && r.value in host.commits
              && host.commits[r.value].parents == [parent]
              && host.commits[r.value].message == message
              && host.commits[r.value].tree in host.trees
              && host.trees[host.commits[r.value].tree] == Overlay(old(host.trees[host.commits[parent].tree]), files)
  {
    ghost var commits0, trees0 := host.commits, host.trees;
    var baseTree := host.GetTree(parent, FaultOf(faults, GetTreeStep));
    if baseTree.Err? {
      return Err(PublishError(GetTreeStep, baseTree.error));
    }
    var entries := BuildEntries(files);
    var newTree := host.CreateTree(baseTree.value, entries, FaultOf(faults, CreateTreeStep));
    if newTree.Err? {
      return Err(PublishError(CreateTreeStep, newTree.error));
    }
    ghost var trees1 := host.trees;
    EntriesOverlay(trees0[baseTree.value], entries, files);
    assert newTree.value !in trees0;
    ExtendsByNewTree(commits0, trees0, newTree.value, trees1[newTree.value]);
    var commit := host.CreateCommit(message, newTree.value, [parent], FaultOf(faults, CreateCommitStep));
    if commit.Err? {
      return Err(PublishError(CreateCommitStep, commit.error));
    }
    assert commit.value !in commits0;
    ExtendsByNewCommit(commits0, trees1, trees0, commit.value, host.commits[commit.value]);
    r := Ok(commit.value);
  }

  /**
   * `UploadFiles`: all files in one commit on top of the head, and the branch
   * moved to it last, without forcing. `faults` holds the host's error text
   * for each call it fails; `rival` is the message of a commit another
   * writer pushes to the branch after `GetRef` read it. Any failure returns
   * before the branch moves; an update that fails leaves the new commit
   * behind, unreferenced, and another writer's push always makes it fail.
   */
  method UploadFiles(host: GitHost, files: map<string, Bytes>, message: string, faults: map<Step, string>, rival: Option<string>)
    returns (err: Option<PublishError>)
    requires host.Valid()
    modifies host
    ensures host.Valid()
    ensures err == UploadError(faults, rival)
    ensures Extends(host.commits, host.trees, old(host.commits), old(host.trees))
    ensures rival.None? && err.Some? ==> host.head == old(host.head)
    ensures rival.Some? ==> RivalOnTop(host, old(host.head), old(host.commits), rival.value)
    ensures err.None? ==>
              && host.head !in old(host.commits)
              && CommittedOnto(host, old(host.head), old(host.trees[host.commits[host.head].tree]), files, message)
    ensures err.Some? && err.value.step == UpdateRefStep ==>
              exists c :: c in host.commits && c !in old(host.commits) && c != host.head
                          && host.commits[c].parents == [old(host.head)] && host.commits[c].message == message
    ensures rival.None? && err.Some? && err.value.step != UpdateRefStep ==> host.commits == old(host.commits)
  {
    ghost var commits0, trees0, head0 := host.commits, host.trees, host.head;
    var ref := host.GetRef(FaultOf(faults, GetRefStep));
    if rival.Some? {
      host.Advance(rival.value);
      ExtendsByNewCommit(commits0, trees0, trees0, host.head, host.commits[host.head]);
    }
    ghost var commits1, trees1, head1 := host.commits, host.trees, host.head;
    if ref.Err? {
      return Some(PublishError(GetRefStep, ref.error));
    }
    var staged := StageCommit(host, ref.value, files, message, faults);
    ExtendsTransitive(host.commits, host.trees, commits1, trees1, commits0, trees0);
    if staged.Err? {
      return Some(staged.error);
    }
    ghost var commits2 := host.commits;
    var moved := host.UpdateRef(staged.value, false, FaultOf(faults, UpdateRefStep));
    if moved.Err? {
      assert staged.value in host.commits && staged.value !in commits0 && staged.value != host.head;
      return Some(PublishError(UpdateRefStep, moved.error));
    }
    err := None;
  }

  /** What `Handler` does: `log.Fatalf`, which ends the process, or a response. */
  datatype Outcome = Fatal(message: string) | Replied(response: Response)

  const UploadedReply := "{\"message\": \"Files uploaded successfully in a single commit\"}"

  /** The 500 body: the error of `UploadFiles`, its host text included. */
  function UploadFailedReply(e: PublishError): string
  {
    "{\"error\": \"Failed to upload files: " + ErrorMessage(e) + "\"}"
  }

  /**
   * `Handler` for the day `today`: list, download, then publish in one commit
   * when at least one file was downloaded.
   */
  method PublishDay(host: GitHost, today: string, pages: seq<Page>, downloads: map<string, Bytes>,
                    faults: map<Step, string>, rival: Option<string>)
    returns (out: Outcome)
    requires host.Valid()
    modifies host
    ensures host.Valid()
    ensures out.Fatal? <==> !AllListed(pages)
    ensures out.Fatal? ==> unchanged(host)
    ensures out.Fatal? ==> exists i :: 0 <= i < |pages| && pages[i].Err? && AllListed(pages[..i])
                                       && out.message == "failed to list files in S3: " + ListError(pages[i].error)
    ensures out.Replied? ==> |Collected(Keys(pages), downloads, today)| == 0 ==>
              out.response == Reply(StatusOK, UploadedReply) && unchanged(host)
    ensures out.Replied? ==> |Collected(Keys(pages), downloads, today)| > 0 ==>
              var err := UploadError(faults, rival);
              && (out.response == Reply(StatusOK, UploadedReply) <==> err.None?)
              && (err.Some? ==> out.response == Reply(StatusInternalServerError, UploadFailedReply(err.value)))
              && (err.None? ==> CommittedOnto(host, old(host.head), old(host.trees[host.commits[host.head].tree]),
                                              Collected(Keys(pages), downloads, today), CommitMessage(today)))
              && (rival.None? && err.Some? ==> host.head == old(host.head))
              && (rival.Some? ==> RivalOnTop(host, old(host.head), old(host.commits), rival.value))
  {
    var listed := ListFiles(pages);
    if listed.Err? {
      return Fatal("failed to list files in S3: " + listed.error);
    }
    var files := CollectFiles(listed.value, downloads, today);
    if |files| > 0 {
      var err := UploadFiles(host, files, CommitMessage(today), faults, rival);
      if err.Some? {
        return Replied(Reply(StatusInternalServerError, UploadFailedReply(err.value)));
      }
    }
    out := Replied(Reply(StatusOK, UploadedReply));
  }
}
