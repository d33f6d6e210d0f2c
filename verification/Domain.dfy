/** Vocabulary shared by the models: job identifiers, job statuses and dependencies. */
module Domain {

  datatype Option<+T> = None | Some(value: T)

  /** Identifiers (UUIDs in the running system) are only ever compared for equality. */
  type JobId = int

  datatype JobStatus =
    | PENDING | QUEUED | RUNNING | COMPLETED | FAILED | RETRYING | CANCELLED | TIMED_OUT | SKIPPED

  /** "Wait until `jobId` reports one of `requireStatus`." */
  datatype Dependency = Dependency(jobId: JobId, requireStatus: seq<JobStatus>)

  function ToSet<T>(s: seq<T>): set<T> { set x | x in s }

  predicate NoDuplicates<T(==)>(s: seq<T>) {
    forall i, j :: 0 <= i < j < |s| ==> s[i] != s[j]
  }
}
