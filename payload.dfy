/**
 * A bus message as the collectors see it, once its JSON has been decoded.  Each key the
 * collectors look up is an optional field, `None` standing for a key that is absent; the
 * message `id` and its `body` are always there.  Parsing of the JSON text and of the
 * date strings is not modelled: `sent-at` arrives here already as a timestamp.
 */
module Payload {
  import opened Wrappers
  import opened Calendar

  /** The exceptions the collectors let escape while storing a message. */
  datatype Error =
    | MissingKey(path: string)     // a `KeyError` outside any `try`
    | NoSuchTable(name: string)    // SQLite's "no such table" on `INSERT`

  datatype FileStats = FileStats(additions: Option<int>, deletions: Option<int>)
  datatype Stats = Stats(files: Option<map<string, FileStats>>)
  datatype Commit = Commit(stats: Option<Stats>, branch: Option<string>, repo: Option<string>,
                           namespace: Option<string>, agent: Option<string>)
  datatype Project = Project(fullname: Option<string>)
  datatype Body = Body(project: Option<Project>, commit: Option<Commit>, agent: Option<string>)
  datatype Headers = Headers(sentAt: Option<Timestamp>)
  datatype Message = Message(id: string, topic: string, timestamp: Option<Timestamp>, body: Body,
                             headers: Option<Headers>)

  const DeadPackage: string := "dead.package"

  /** `body.commit.stats.files["dead.package"]`, `None` when any key on the way is missing. */
  function DeadPackageEntry(m: Message): Option<FileStats> {
    if m.body.commit.Some? && m.body.commit.value.stats.Some?
       && m.body.commit.value.stats.value.files.Some?
       && DeadPackage in m.body.commit.value.stats.value.files.value
    then Some(m.body.commit.value.stats.value.files.value[DeadPackage])
    else None
  }

  /** `body.commit.branch`. */
  function Branch(m: Message): Option<string> {
    if m.body.commit.Some? then m.body.commit.value.branch else None
  }

  predicate RetirementBranch(b: string) {
    b == "main" || b == "rawhide"
  }

  /** The entry does not say the file was only deleted: it was added, or nothing was deleted. */
  predicate Added(e: FileStats) {
    e.additions.Some? && (e.additions.value != 0 || (e.deletions.Some? && e.deletions.value == 0))
  }

  /**
   * `is_retirement`.  A missing entry is caught and answers false; the look-ups of
   * `additions`, `deletions` (only read when `additions` is 0) and `branch` are not
   * guarded, so a missing one escapes as an error.
   */
  function IsRetirement(m: Message): Result<bool, Error> {
    match DeadPackageEntry(m)
    case None => Success(false)
    case Some(entry) =>
      if entry.additions.None? then Failure(MissingKey("body.commit.stats.files.dead.package.additions"))
      else if entry.additions.value == 0 && entry.deletions.None?
      then Failure(MissingKey("body.commit.stats.files.dead.package.deletions"))
      else if entry.additions.value == 0 && entry.deletions.value != 0 then Success(false)
      else if Branch(m).None? then Failure(MissingKey("body.commit.branch"))
      else Success(RetirementBranch(Branch(m).value))
  }

  /**
   * Retirement holds exactly for a `dead.package` entry that was added, on `main` or
   * `rawhide`; a message without the entry is no retirement; and the check answers
   * rather than raising exactly when every key it reads is there.
   */
  lemma IsRetirementSpec(m: Message)
    ensures IsRetirement(m) == Success(true) <==>
              DeadPackageEntry(m).Some? && Added(DeadPackageEntry(m).value)
              && Branch(m).Some? && RetirementBranch(Branch(m).value)
    ensures DeadPackageEntry(m).None? ==> IsRetirement(m) == Success(false)
    ensures IsRetirement(m).Success? <==>
              DeadPackageEntry(m).None?
              || (var e := DeadPackageEntry(m).value;
                  e.additions.Some? && (e.additions.value != 0 || e.deletions.Some?)
                  && (Added(e) ==> Branch(m).Some?))
  {
  }

  /** `body.agent`, otherwise `body.commit.agent`; neither is an error. */
  function Agent(b: Body): (r: Result<string, Error>)
    ensures r.Success? <==> b.agent.Some? || (b.commit.Some? && b.commit.value.agent.Some?)
    ensures b.agent.Some? ==> r == Success(b.agent.value)
    ensures b.agent.None? && r.Success? ==> r == Success(b.commit.value.agent.value)
  {
    if b.agent.Some? then Success(b.agent.value)
    else if b.commit.None? then Failure(MissingKey("body.commit"))
    else if b.commit.value.agent.None? then Failure(MissingKey("body.commit.agent"))
    else Success(b.commit.value.agent.value)
  }

  /** `body.project.fullname`, `None` when either key is missing. */
  function FullName(b: Body): Option<string> {
    if b.project.Some? then b.project.value.fullname else None
  }

  // ---------------------------------------------------------------- sample messages

  function CommitMessage(entry: Option<FileStats>, branch: Option<string>): Message {
    var files := if entry.Some? then map[DeadPackage := entry.value] else map[];
    var commit := Commit(Some(Stats(Some(files))), branch, Some("foo"), Some("rpms"), Some("alice"));
    Message("m1", "org.fedoraproject.prod.git.receive", None, Body(None, Some(commit), None), None)
  }

  /** An entry with both counts zero passes the "was it added" test. */
  lemma RetirementWithZeroCounts()
    ensures IsRetirement(CommitMessage(Some(FileStats(Some(0), Some(0))), Some("rawhide"))) == Success(true)
  {
    var m := CommitMessage(Some(FileStats(Some(0), Some(0))), Some("rawhide"));
    assert DeadPackageEntry(m) == Some(FileStats(Some(0), Some(0)));
  }

  /** Deleting `dead.package` on rawhide, or adding it on a release branch, is no retirement. */
  lemma NotRetirements()
    ensures IsRetirement(CommitMessage(Some(FileStats(Some(0), Some(1))), Some("rawhide"))) == Success(false)
    ensures IsRetirement(CommitMessage(Some(FileStats(Some(1), Some(0))), Some("f39"))) == Success(false)
    ensures IsRetirement(CommitMessage(None, None)) == Success(false)
  {
    var m1 := CommitMessage(Some(FileStats(Some(0), Some(1))), Some("rawhide"));
    assert DeadPackageEntry(m1) == Some(FileStats(Some(0), Some(1)));
    var m2 := CommitMessage(Some(FileStats(Some(1), Some(0))), Some("f39"));
    assert DeadPackageEntry(m2) == Some(FileStats(Some(1), Some(0)));
    assert !RetirementBranch("f39");
  }

  /** An added entry with no `branch` key raises instead of answering. */
  lemma RetirementWithoutBranch()
    ensures IsRetirement(CommitMessage(Some(FileStats(Some(1), None)), None)).Failure?
  {
    var m := CommitMessage(Some(FileStats(Some(1), None)), None);
    assert DeadPackageEntry(m) == Some(FileStats(Some(1), None));
  }
}
