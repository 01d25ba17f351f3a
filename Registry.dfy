/** The live job registry: job ids, registration with `replace_existing=True`
    (last write wins), and the registry object `schedule_task` adds jobs to. */
module Registry {
  import opened Wrappers
  import opened Calendar
  import opened DateText
  import opened Trigger

  /** A live job: its trigger and the argument of its callback, which is always `run_script`. */
  datatype Job = Job(rule: Rule, path: string)

  /** The id under which a script's job for one frequency is registered. */
  function JobId(path: string, freq: string): (id: string)
    ensures |id| == |path| + 1 + |freq|
    ensures id[..|path|] == path && id[|path|] == '_' && id[|path| + 1..] == freq
  {
    path + "_" + freq
  }

  /** For the three known tags the id determines the script and the frequency, so
      two different (script, frequency) pairs never share a live job. */
  lemma JobIdInjective(p1: string, f1: string, p2: string, f2: string)
    requires IsFrequency(f1) && IsFrequency(f2) && JobId(p1, f1) == JobId(p2, f2)
    ensures p1 == p2 && f1 == f2
  {
  }

  /** The registry after `schedule_task(freq, anchor, path)`: the job for
      JobId(path, freq) is set, replacing any earlier one, when the tag is known. */
  function Register(jobs: map<string, Job>, freq: string, anchor: DateTime, path: string): (r: map<string, Job>)
    requires ValidDateTime(anchor)
    ensures IsFrequency(freq) ==> JobId(path, freq) in r && r[JobId(path, freq)] == Job(Compile(freq, anchor).value, path)
    ensures !IsFrequency(freq) ==> r == jobs
    ensures r.Keys == jobs.Keys + (if IsFrequency(freq) then {JobId(path, freq)} else {})
    ensures forall k :: k in jobs && k != JobId(path, freq) ==> r[k] == jobs[k]
  {
    match Compile(freq, anchor)
    case None => jobs
    case Some(rule) => jobs[JobId(path, freq) := Job(rule, path)]
  }

  /** A registration adds at most one job, and adds one exactly when its id was new. */
  lemma RegisterGrowsByAtMostOne(jobs: map<string, Job>, freq: string, anchor: DateTime, path: string)
    requires ValidDateTime(anchor)
    ensures var r := Register(jobs, freq, anchor, path);
      |r| == |jobs| + (if IsFrequency(freq) && JobId(path, freq) !in jobs then 1 else 0)
  {
  }

  /** Registering the same script and frequency twice leaves one job, the second. */
  lemma RegisterTwiceLastWins(jobs: map<string, Job>, freq: string, a1: DateTime, a2: DateTime, path: string)
    requires ValidDateTime(a1) && ValidDateTime(a2)
    ensures Register(Register(jobs, freq, a1, path), freq, a2, path) == Register(jobs, freq, a2, path)
  {
  }

  /** Registrations of different (script, frequency) pairs do not interfere. */
  lemma RegisterCommutes(jobs: map<string, Job>, f1: string, a1: DateTime, p1: string,
                         f2: string, a2: DateTime, p2: string)
    requires ValidDateTime(a1) && ValidDateTime(a2) && (p1, f1) != (p2, f2)
    ensures Register(Register(jobs, f1, a1, p1), f2, a2, p2) == Register(Register(jobs, f2, a2, p2), f1, a1, p1)
  {
  }

  /** Every job sits under the id of its own script and frequency. */
  ghost predicate WellKeyed(jobs: map<string, Job>)
  {
    forall k :: k in jobs ==> k == JobId(jobs[k].path, Tag(jobs[k].rule))
  }

  lemma RegisterKeepsWellKeyed(jobs: map<string, Job>, freq: string, anchor: DateTime, path: string)
    requires ValidDateTime(anchor) && WellKeyed(jobs)
    ensures WellKeyed(Register(jobs, freq, anchor, path))
  {
  }

  /** The scheduler's job store, keyed by job id. */
  class JobRegistry {
    var jobs: map<string, Job>

    constructor ()
      ensures jobs == map[]
    {
      jobs := map[];
    }

    /** `scheduler.add_job(..., id=id, replace_existing=True)`. */
    method AddJob(id: string, job: Job)
      modifies this
      ensures jobs == old(jobs)[id := job]
    {
      jobs := jobs[id := job];
    }

    /** `schedule_task(freq, text, path)`; `parsed` is false where `strptime` raises,
        and then nothing is registered. */
    method ScheduleTask(freq: string, text: string, path: string) returns (parsed: bool)
      modifies this
      ensures parsed <==> Parse(text).Some?
      ensures parsed ==> jobs == Register(old(jobs), freq, Parse(text).value, path)
      ensures !parsed ==> jobs == old(jobs)
      ensures old(WellKeyed(jobs)) ==> WellKeyed(jobs)
    {
      var anchor := Parse(text);
      if anchor.None? {
        return false;
      }
      parsed := true;
      var rule := Compile(freq, anchor.value);
      if rule.None? {
        return;
      }
      AddJob(JobId(path, freq), Job(rule.value, path));
      if old(WellKeyed(jobs)) {
        RegisterKeepsWellKeyed(old(jobs), freq, anchor.value, path);
      }
    }
  }
}
