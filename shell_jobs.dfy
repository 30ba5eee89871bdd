/**
 * The shell's job table: 64 fixed slots, a slot being free when its process
 * group id is 0, and a counter handing out job ids from 1. A job is added
 * to the lowest free slot, found by id, found as the most recent, removed
 * by process group, and listed in slot order.
 *
 * The messages `add_job` prints are modelled as a `Notice`; reaping with
 * `waitpid` (`check_jobs`) and `kill_all_jobs` belong to process control and
 * are not part of this model.
 */
module ShellJobs {
  import opened Common

  const MAX_JOBS: nat := 64
  const MAX_CMD_LEN: nat := 256

  datatype JobStatus = Running | Stopped | Terminated

  datatype Job = Job(pid: int, pgid: int, jobId: int, command: string, status: JobStatus)

  /** A slot of the zero-initialised static table (RUNNING is the enum's 0). */
  const EMPTY_SLOT: Job := Job(0, 0, 0, "", Running)

  /** What `add_job` prints. */
  datatype Notice =
    | Started(jobId: int, pid: int)             // "[%d] %d\n"
    | StoppedNotice(jobId: int, command: string) // "\n[%d] Stopped \t%s\n"
    | Quiet                                      // a job added as TERMINATED prints nothing
    | TableFull                                  // "Shell error: Maximum jobs reached.\n"

  predicate Active(j: Job) {
    j.pgid != 0
  }

  // ---------------------------------------------------------------------------
  // The table as a sequence of slots
  // ---------------------------------------------------------------------------

  /** The command as `strncpy` into the 256-byte field leaves it: at most 255 characters. */
  function Truncate(command: string): (r: string)
    ensures |r| <= MAX_CMD_LEN - 1 && r <= command
    ensures |command| <= MAX_CMD_LEN - 1 ==> r == command
    ensures |command| > MAX_CMD_LEN - 1 ==> |r| == MAX_CMD_LEN - 1
  {
    command[..Min(|command|, MAX_CMD_LEN - 1)]
  }

  /** The first slot whose process group id is `p` (`p == 0`: the first free slot). */
  function FirstWithPgid(s: seq<Job>, p: int): (r: Option<nat>)
    ensures r.Some? ==> r.value < |s| && s[r.value].pgid == p && forall k | 0 <= k < r.value :: s[k].pgid != p
    ensures r.None? ==> forall k | 0 <= k < |s| :: s[k].pgid != p
  {
    if |s| == 0 then None
    else
      var r := FirstWithPgid(s[..|s| - 1], p);
      if r.Some? then r else if s[|s| - 1].pgid == p then Some(|s| - 1) else None
  }

  /** The first active slot holding job `id`. */
  function FindById(s: seq<Job>, id: int): (r: Option<nat>)
    ensures r.Some? ==> r.value < |s| && Active(s[r.value]) && s[r.value].jobId == id
    ensures r.Some? ==> forall k | 0 <= k < r.value :: !(Active(s[k]) && s[k].jobId == id)
    ensures r.None? ==> forall k | 0 <= k < |s| :: !(Active(s[k]) && s[k].jobId == id)
  {
    if |s| == 0 then None
    else
      var r := FindById(s[..|s| - 1], id);
      if r.Some? then r else if Active(s[|s| - 1]) && s[|s| - 1].jobId == id then Some(|s| - 1) else None
  }

  /** The job id the scan of `find_most_recent_job` has to beat: -1 before any active job. */
  function BestId(s: seq<Job>, r: Option<nat>): int
    requires r.Some? ==> r.value < |s|
  {
    if r.Some? then s[r.value].jobId else -1
  }

  /**
   * The slot `find_most_recent_job` returns: the active job with the largest
   * id, the first such slot on a tie, and only among ids above -1.
   */
  function MostRecent(s: seq<Job>): (r: Option<nat>)
    ensures r.Some? ==> r.value < |s| && Active(s[r.value]) && s[r.value].jobId >= 0
    ensures r.Some? ==> forall k | 0 <= k < |s| && Active(s[k]) :: s[k].jobId <= s[r.value].jobId
    ensures r.Some? ==> forall k | 0 <= k < r.value && Active(s[k]) :: s[k].jobId < s[r.value].jobId
    ensures r.None? ==> forall k | 0 <= k < |s| && Active(s[k]) :: s[k].jobId < 0
  {
    if |s| == 0 then None
    else
      var r := MostRecent(s[..|s| - 1]);
      var last := s[|s| - 1];
      if Active(last) && last.jobId > BestId(s[..|s| - 1], r) then Some(|s| - 1) else r
  }

  /** The active jobs in slot order, as `get_job_list` copies them. */
  function ActiveJobs(s: seq<Job>): (r: seq<Job>)
    ensures |r| <= |s|
    ensures forall k | 0 <= k < |r| :: Active(r[k])
  {
    if |s| == 0 then []
    else ActiveJobs(s[..|s| - 1]) + (if Active(s[|s| - 1]) then [s[|s| - 1]] else [])
  }

  function NoticeFor(j: Job): Notice {
    match j.status
    case Running => Started(j.jobId, j.pid)
    case Stopped => StoppedNotice(j.jobId, j.command)
    case Terminated => Quiet
  }

  /** `add_job(pgid, command, status)`: the new slots, the new counter and the message. */
  function AddStep(s: seq<Job>, next: int, pgid: int, command: string, status: JobStatus): (seq<Job>, int, Notice) {
    match FirstWithPgid(s, 0)
    case None => (s, next, TableFull)
    case Some(i) =>
      var j := Job(pgid, pgid, next, Truncate(command), status);
      (s[i := j], next + 1, NoticeFor(j))
  }

  /** `remove_job_by_pgid(pgid)`: the new slots and the result, 1 when a slot was freed. */
  function RemoveStep(s: seq<Job>, pgid: int): (seq<Job>, int) {
    match FirstWithPgid(s, pgid)
    case None => (s, 0)
    case Some(i) => (s[i := s[i].(pgid := 0)], 1)
  }

  /**
   * Job ids of active slots are unique and lie between 1 and the counter:
   * the counter starts at 1 and every id is taken from it once.
   */
  ghost predicate IdsValid(s: seq<Job>, next: int) {
    && 1 <= next
    && (forall k | 0 <= k < |s| && Active(s[k]) :: 1 <= s[k].jobId < next)
    && (forall k, l | 0 <= k < l < |s| && Active(s[k]) && Active(s[l]) :: s[k].jobId != s[l].jobId)
  }

  // ---------------------------------------------------------------------------
  // Properties of the table operations
  // ---------------------------------------------------------------------------

  /** A table after `init_jobs` has no active job, so any counter of at least 1 is valid for it. */
  lemma FreedValid(s: seq<Job>, next: int)
    requires 1 <= next && forall k | 0 <= k < |s| :: s[k].pgid == 0
    ensures IdsValid(s, next) && |ActiveJobs(s)| == 0 && MostRecent(s).None?
  {
    NoActiveJobs(s);
  }

  lemma {:induction false} NoActiveJobs(s: seq<Job>)
    requires forall k | 0 <= k < |s| :: !Active(s[k])
    ensures |ActiveJobs(s)| == 0
  {
    if |s| > 0 {
      NoActiveJobs(s[..|s| - 1]);
    }
  }

  /**
   * Adding a job fills the lowest free slot with pid = pgid, the next id and
   * the truncated command, advances the counter and changes no other slot;
   * with no free slot nothing changes.
   */
  lemma AddFillsLowestFree(s: seq<Job>, next: int, pgid: int, command: string, status: JobStatus)
    ensures var (s', next', notice) := AddStep(s, next, pgid, command, status);
      && |s'| == |s|
      && (notice == TableFull <==> forall k | 0 <= k < |s| :: Active(s[k]))
      && (notice == TableFull ==> s' == s && next' == next)
      && (notice != TableFull ==> exists i | 0 <= i < |s| ::
            && !Active(s[i]) && (forall k | 0 <= k < i :: Active(s[k]))
            && s'[i] == Job(pgid, pgid, next, Truncate(command), status)
            && (forall k | 0 <= k < |s| && k != i :: s'[k] == s[k])
            && next' == next + 1)
  {
    match FirstWithPgid(s, 0)
    case None =>
    case Some(i) =>
      assert NoticeFor(Job(pgid, pgid, next, Truncate(command), status)) != TableFull;
  }

  /** Adding a job keeps the ids unique and below the counter. */
  lemma AddKeepsIds(s: seq<Job>, next: int, pgid: int, command: string, status: JobStatus)
    requires IdsValid(s, next)
    ensures var (s', next', _) := AddStep(s, next, pgid, command, status); IdsValid(s', next') && next <= next'
  {
  }

  /** The job just added is the most recent one and is found by its id. */
  lemma AddedIsMostRecent(s: seq<Job>, next: int, pgid: int, command: string, status: JobStatus)
    requires IdsValid(s, next) && pgid != 0 && FirstWithPgid(s, 0).Some?
    ensures var (s', _, _) := AddStep(s, next, pgid, command, status);
      && MostRecent(s') == FirstWithPgid(s, 0)
      && FindById(s', next) == FirstWithPgid(s, 0)
  {
    var i := FirstWithPgid(s, 0).value;
    var s' := AddStep(s, next, pgid, command, status).0;
    var r := MostRecent(s');
    assert r.Some? by {
      assert Active(s'[i]) && s'[i].jobId >= 0;
    }
    assert r.value == i by {
      assert s'[i].jobId <= s'[r.value].jobId;
    }
    var f := FindById(s', next);
    assert f.Some? by {
      assert Active(s'[i]) && s'[i].jobId == next;
    }
  }

  /** Removing a job keeps the ids unique and below the counter. */
  lemma RemoveKeepsIds(s: seq<Job>, next: int, pgid: int)
    requires IdsValid(s, next)
    ensures IdsValid(RemoveStep(s, pgid).0, next)
  {
  }

  /**
   * Removal frees exactly the first slot with that process group and
   * reports 1, or reports 0 and changes nothing.
   */
  lemma RemoveFreesFirst(s: seq<Job>, pgid: int)
    ensures var (s', r) := RemoveStep(s, pgid);
      && |s'| == |s|
      && (r == 0 <==> forall k | 0 <= k < |s| :: s[k].pgid != pgid)
      && (r == 0 ==> s' == s)
      && (r == 1 ==> exists i | 0 <= i < |s| ::
            && s[i].pgid == pgid && (forall k | 0 <= k < i :: s[k].pgid != pgid)
            && s'[i] == s[i].(pgid := 0)
            && (forall k | 0 <= k < |s| && k != i :: s'[k] == s[k]))
  {
  }

  /**
   * Removing the process group of a job just added restores the list of
   * active jobs, when no slot had that process group before.
   */
  lemma AddThenRemove(s: seq<Job>, next: int, pgid: int, command: string, status: JobStatus)
    requires pgid != 0 && forall k | 0 <= k < |s| :: s[k].pgid != pgid
    ensures var (s1, _, _) := AddStep(s, next, pgid, command, status);
      var (s2, r) := RemoveStep(s1, pgid);
      ActiveJobs(s2) == ActiveJobs(s) && (FirstWithPgid(s, 0).Some? <==> r == 1)
  {
    var f := FirstWithPgid(s, 0);
    if f.None? {
      assert FirstWithPgid(s, pgid).None?;
    } else {
      var i := f.value;
      var j := Job(pgid, pgid, next, Truncate(command), status);
      assert AddStep(s, next, pgid, command, status).0 == s[i := j];
      AddedFoundByPgid(s, i, j);
      assert RemoveStep(s[i := j], pgid).0 == s[i := j.(pgid := 0)];
      ActiveJobsUpdateInactive(s, i, j.(pgid := 0));
    }
  }

  lemma AddedFoundByPgid(s: seq<Job>, i: nat, j: Job)
    requires i < |s| && forall k | 0 <= k < |s| :: s[k].pgid != j.pgid
    ensures FirstWithPgid(s[i := j], j.pgid) == Some(i)
  {
    var t := s[i := j];
    forall k | 0 <= k < i
      ensures t[k].pgid != j.pgid
    {
      assert t[k] == s[k];
    }
    var r := FirstWithPgid(t, j.pgid);
    assert t[i].pgid == j.pgid;
    assert r.Some?;
  }

  /** Overwriting a free slot with another inactive slot leaves the active jobs alone. */
  lemma {:induction false} ActiveJobsUpdateInactive(s: seq<Job>, i: nat, x: Job)
    requires i < |s| && !Active(s[i]) && !Active(x)
    ensures ActiveJobs(s[i := x]) == ActiveJobs(s)
  {
    var t := s[i := x];
    if i < |s| - 1 {
      assert t[..|t| - 1] == s[..|s| - 1][i := x];
      ActiveJobsUpdateInactive(s[..|s| - 1], i, x);
    } else {
      assert t[..|t| - 1] == s[..|s| - 1];
    }
  }

  /** The listed jobs are exactly the active slots. */
  lemma {:induction false} ActiveJobsMembers(s: seq<Job>, j: Job)
    ensures j in ActiveJobs(s) <==> exists k | 0 <= k < |s| :: s[k] == j && Active(j)
  {
    if |s| > 0 {
      var init := s[..|s| - 1];
      ActiveJobsMembers(init, j);
      if j in ActiveJobs(s) && !(j in ActiveJobs(init)) {
        assert s[|s| - 1] == j;
      }
      if exists k | 0 <= k < |s| :: s[k] == j && Active(j) {
        var k :| 0 <= k < |s| && s[k] == j && Active(j);
        if k < |s| - 1 {
          assert init[k] == j;
        }
      }
    }
  }

  /** Under unique ids, the job found by id is the only active slot with that id. */
  lemma FoundByIdIsUnique(s: seq<Job>, next: int, id: int, k: nat)
    requires IdsValid(s, next) && k < |s| && Active(s[k]) && s[k].jobId == id
    ensures FindById(s, id) == Some(k)
  {
  }

  // ---------------------------------------------------------------------------
  // The static table
  // ---------------------------------------------------------------------------

  class JobTable {
    var slots: array<Job>
    var nextJobId: int
    /** The messages of jobs reaped by `check_jobs`, waiting for `print_completed_jobs`. */
    var completed: seq<string>

    ghost predicate Valid()
      reads this
    {
      slots.Length == MAX_JOBS
    }

    function Jobs(): seq<Job>
      reads this, slots
    {
      slots[..]
    }

    /** The program's start: zeroed slots, `next_job_id = 1`, no completed messages. */
    constructor()
      ensures Valid() && fresh(slots)
      ensures Jobs() == seq(MAX_JOBS, _ => EMPTY_SLOT) && nextJobId == 1 && completed == []
    {
      slots := new Job[MAX_JOBS](_ => EMPTY_SLOT);
      nextJobId := 1;
      completed := [];
    }

    /** `init_jobs`: every slot is marked free. */
    method InitJobs()
      requires Valid()
      modifies slots
      ensures forall k | 0 <= k < MAX_JOBS :: Jobs()[k] == old(Jobs()[k]).(pgid := 0)
    {
      for i := 0 to MAX_JOBS
        invariant forall k | 0 <= k < i :: slots[k] == old(slots[k]).(pgid := 0)
        invariant forall k | i <= k < MAX_JOBS :: slots[k] == old(slots[k])
      {
        slots[i] := slots[i].(pgid := 0);
      }
    }

    /** `add_job(pgid, command, status)`. */
    method AddJob(pgid: int, command: string, status: JobStatus) returns (notice: Notice)
      requires Valid()
      modifies this, slots
      ensures Valid() && slots == old(slots) && completed == old(completed)
      ensures (Jobs(), nextJobId, notice) == AddStep(old(Jobs()), old(nextJobId), pgid, command, status)
    {
      for i := 0 to MAX_JOBS
        invariant forall k | 0 <= k < i :: slots[k].pgid != 0
      {
        if slots[i].pgid == 0 {
          var j := Job(pgid, pgid, nextJobId, Truncate(command), status);
          assert FirstWithPgid(slots[..], 0) == Some(i);
          slots[i] := j;
          nextJobId := nextJobId + 1;
          notice := NoticeFor(j);
          return;
        }
      }
      notice := TableFull;
    }

    /** `find_job_by_id(id)`: the slot index, or `None` for NULL. */
    method FindJobById(id: int) returns (r: Option<nat>)
      requires Valid()
      ensures r == FindById(Jobs(), id)
    {
      for i := 0 to MAX_JOBS
        invariant FindById(slots[..i], id).None?
      {
        assert slots[..i + 1][..i] == slots[..i];
        if slots[i].pgid != 0 && slots[i].jobId == id {
          assert FindById(slots[..], id) == Some(i);
          return Some(i);
        }
      }
      assert slots[..MAX_JOBS] == slots[..];
      return None;
    }

    /** `find_most_recent_job()`: the slot index, or `None` for NULL. */
    method FindMostRecentJob() returns (r: Option<nat>)
      requires Valid()
      ensures r == MostRecent(Jobs())
    {
      var maxJobId := -1;
      r := None;
      for i := 0 to MAX_JOBS
        invariant r == MostRecent(slots[..i])
        invariant maxJobId == BestId(slots[..i], r)
      {
        assert slots[..i + 1][..i] == slots[..i];
        if slots[i].pgid != 0 && slots[i].jobId > maxJobId {
          maxJobId := slots[i].jobId;
          r := Some(i);
        }
      }
      assert slots[..MAX_JOBS] == slots[..];
    }

    /** `remove_job_by_pgid(pgid)`. */
    method RemoveJobByPgid(pgid: int) returns (r: int)
      requires Valid()
      modifies slots
      ensures (Jobs(), r) == RemoveStep(old(Jobs()), pgid)
    {
      for i := 0 to MAX_JOBS
        invariant forall k | 0 <= k < i :: slots[k].pgid != pgid
      {
        if slots[i].pgid == pgid {
          assert FirstWithPgid(slots[..], pgid) == Some(i);
          slots[i] := slots[i].(pgid := 0);
          return 1;
        }
      }
      return 0;
    }

    /** `get_job_list(snapshot)`: the copied jobs and their count. */
    method GetJobList() returns (snapshot: seq<Job>, count: int)
      requires Valid()
      ensures snapshot == ActiveJobs(Jobs()) && count == |snapshot|
    {
      snapshot := [];
      count := 0;
      var i := 0;
      while i < MAX_JOBS && count < MAX_JOBS
        invariant 0 <= i <= MAX_JOBS
        invariant snapshot == ActiveJobs(slots[..i]) && count == |snapshot| <= i
      {
        assert slots[..i + 1][..i] == slots[..i];
        if slots[i].pgid != 0 {
          snapshot := snapshot + [slots[i]];
          count := count + 1;
        }
        i := i + 1;
      }
      assert slots[..MAX_JOBS] == slots[..];
    }

    /** `print_completed_jobs()`: the lines printed, after which the buffer is empty. */
    method PrintCompletedJobs() returns (lines: seq<string>)
      modifies this
      ensures lines == old(completed) && completed == []
      ensures slots == old(slots) && nextJobId == old(nextJobId)
    {
      lines := [];
      for i := 0 to |completed|
        invariant lines == completed[..i]
      {
        lines := lines + [completed[i]];
      }
      completed := [];
    }
  }
}
