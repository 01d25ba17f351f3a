/** `load_and_reschedule`: at start-up every stored element is fed back through
    `schedule_task`, in stored order. An element lacking a key is passed over
    silently; one whose datetime does not parse, or a string or list that passes
    the key test, is logged as skipped and the walk goes on; a failure outside the
    per-element handler (an unreadable file, a number, boolean or null element) is
    logged once and ends the walk. */
module Reload {
  import opened Wrappers
  import opened Calendar
  import opened DateText
  import opened Trigger
  import opened Registry
  import opened Store
  import opened AuditLog

  /** The registry and the log part-way through a reload, and whether it has been cut short. */
  datatype LoadState = LoadState(jobs: map<string, Job>, log: seq<LogRecord>, aborted: bool)

  /** The element is a record holding all of "frequency", "datetime" and "filepath". */
  predicate IsComplete(e: Element)
  {
    e.Record? && e.frequency.Some? && e.datetime.Some? && e.filepath.Some?
  }

  /** The element puts a job in the registry: complete, a parseable datetime and a known tag. */
  predicate Active(e: Element)
  {
    IsComplete(e) && Parse(e.datetime.value).Some? && IsFrequency(e.frequency.value)
  }

  /** The inner handler catches an exception for this element, which is logged as
      skipped: a complete record whose datetime does not parse, or a string or list
      holding the three key names, on which `job["datetime"]` raises. */
  predicate Rejected(e: Element)
  {
    (IsComplete(e) && Parse(e.datetime.value).None?) || e == Sequence(true)
  }

  function IdOf(e: Element): (id: string)
    requires IsComplete(e)
  {
    JobId(e.filepath.value, e.frequency.value)
  }

  function JobOf(e: Element): (job: Job)
    requires Active(e)
  {
    Job(Compile(e.frequency.value, Parse(e.datetime.value).value).value, e.filepath.value)
  }

  /** One pass of the loop body over element e: at most one registration, at most
      one log record, and a stop exactly at a number, boolean or null. */
  function Step(s: LoadState, e: Element): (r: LoadState)
    ensures s.aborted ==> r == s
    ensures !s.aborted ==> r.aborted == e.NonRecord?
    ensures !s.aborted ==> r.jobs == Apply(s.jobs, e)
    ensures !s.aborted ==> r.log == s.log + (if e.NonRecord? then [LoadFailed]
                                             else if Rejected(e) then [Skipped(e)] else [])
  {
    if s.aborted then s
    else match e
      case NonRecord => s.(log := s.log + [LoadFailed], aborted := true)
      case Sequence(holdsKeys) => if holdsKeys then s.(log := s.log + [Skipped(e)]) else s
      case Record(freq, text, path) =>
        if !IsComplete(e) then s
        else match Parse(text.value)
          case None => s.(log := s.log + [Skipped(e)])
          case Some(anchor) => s.(jobs := Register(s.jobs, freq.value, anchor, path.value))
  }

  /** The loop over the remaining elements es. The log only grows, no job is
      removed, once stopped nothing changes, and a walk that stops has just logged
      "Failed to load jobs". */
  function Fold(s: LoadState, es: seq<Element>): (r: LoadState)
    ensures |s.log| <= |r.log| && r.log[..|s.log|] == s.log
    ensures s.jobs.Keys <= r.jobs.Keys
    ensures s.aborted ==> r == s
    ensures !s.aborted && r.aborted ==> |s.log| < |r.log| && r.log[|r.log| - 1] == LoadFailed
    decreases |es|
  {
    if es == [] then s else Fold(Step(s, es[0]), es[1..])
  }

  /** The elements a reload walks: the list, or the keys or characters of a
      top-level object or string. */
  function Walked(f: StoreFile): (es: seq<Element>)
    requires f.Present? || f.NotAList?
  {
    if f.Present? then f.elements
    else seq(|f.keysHold|, i requires 0 <= i < |f.keysHold| => Sequence(f.keysHold[i]))
  }

  /** The registry and log after `load_and_reschedule` over a store file. It only
      adds to the log and never removes a job; an unreadable file adds just
      "Failed to load jobs". */
  function ReloadEffect(jobs: map<string, Job>, log: seq<LogRecord>, f: StoreFile): (r: LoadState)
    ensures |log| <= |r.log| && r.log[..|log|] == log
    ensures jobs.Keys <= r.jobs.Keys
    ensures f.Malformed? ==> r == LoadState(jobs, log + [LoadFailed], true)
  {
    match f
    case Missing => LoadState(jobs, log, false)
    case Malformed => LoadState(jobs, log + [LoadFailed], true)
    case _ => Fold(LoadState(jobs, log, false), Walked(f))
  }

  // ---------------------------------------------------------------------------
  // Reference definitions: the registrations and the skip records on their own.

  /** The registration an element causes, if any. */
  function Apply(jobs: map<string, Job>, e: Element): (r: map<string, Job>)
    ensures Active(e) ==> r == jobs[IdOf(e) := JobOf(e)]
    ensures !Active(e) ==> r == jobs
  {
    if IsComplete(e) && Parse(e.datetime.value).Some? then
      Register(jobs, e.frequency.value, Parse(e.datetime.value).value, e.filepath.value)
    else jobs
  }

  /** Every element's registration, in order. */
  function RegisterAll(jobs: map<string, Job>, es: seq<Element>): (r: map<string, Job>)
    decreases |es|
  {
    if es == [] then jobs else RegisterAll(Apply(jobs, es[0]), es[1..])
  }

  /** One "Skipped invalid job" record per rejected element, in order. */
  function Skips(es: seq<Element>): (r: seq<LogRecord>)
    ensures |r| <= |es|
    ensures forall i :: 0 <= i < |r| ==> r[i].Skipped? && Rejected(r[i].job)
  {
    if es == [] then [] else (if Rejected(es[0]) then [Skipped(es[0])] else []) + Skips(es[1..])
  }

  /** No element ends the walk. */
  predicate NoNonRecord(es: seq<Element>)
  {
    forall i :: 0 <= i < |es| ==> !es[i].NonRecord?
  }

  function ActiveCount(es: seq<Element>): (n: nat)
    ensures n <= |es|
  {
    if es == [] then 0 else (if Active(es[0]) then 1 else 0) + ActiveCount(es[1..])
  }

  /** No two active elements share a job id. */
  predicate DistinctIds(es: seq<Element>)
  {
    forall i, j :: 0 <= i < j < |es| && Active(es[i]) && Active(es[j]) ==> IdOf(es[i]) != IdOf(es[j])
  }

  // ---------------------------------------------------------------------------
  // The loop against the reference definitions.

  /** Without a non-record element the reload registers every active element and
      logs exactly the skip records, and is not cut short. */
  lemma {:induction false} FoldWithoutFailure(s: LoadState, es: seq<Element>)
    requires !s.aborted && NoNonRecord(es)
    ensures Fold(s, es) == LoadState(RegisterAll(s.jobs, es), s.log + Skips(es), false)
    decreases |es|
  {
    if es != [] {
      var s' := Step(s, es[0]);
      assert NoNonRecord(es[1..]) by {
        forall i | 0 <= i < |es[1..]| ensures !es[1..][i].NonRecord? { assert es[1..][i] == es[i + 1]; }
      }
      FoldWithoutFailure(s', es[1..]);
    }
  }

  /** At the first non-record element the reload logs one "Failed to load jobs"
      record and stops; the jobs registered before it stay registered. */
  lemma {:induction false} FoldStopsAtNonRecord(s: LoadState, es: seq<Element>, k: nat)
    requires !s.aborted && k < |es| && es[k].NonRecord? && NoNonRecord(es[..k])
    ensures Fold(s, es) == LoadState(RegisterAll(s.jobs, es[..k]), s.log + Skips(es[..k]) + [LoadFailed], true)
    decreases k
  {
    var s' := Step(s, es[0]);
    assert Fold(s, es) == Fold(s', es[1..]);
    if k == 0 {
      assert s' == LoadState(s.jobs, s.log + [LoadFailed], true);
    } else {
      var e := es[0];
      var before := es[1..][..k - 1];
      assert es[..k] == [e] + before;
      var mark := if Rejected(e) then [Skipped(e)] else [];
      assert s'.jobs == Apply(s.jobs, e) && s'.log == s.log + mark && !s'.aborted;
      assert RegisterAll(s.jobs, es[..k]) == RegisterAll(s'.jobs, before);
      assert Skips(es[..k]) == mark + Skips(before);
      assert NoNonRecord(before) by {
        forall i | 0 <= i < |before| ensures !before[i].NonRecord? { assert before[i] == es[..k][i + 1]; }
      }
      FoldStopsAtNonRecord(s', es[1..], k - 1);
      var tail := Skips(before);
      assert s'.log + tail == s.log + (mark + tail);
    }
  }

  /** An id no active element carries keeps its old job, or stays absent. */
  lemma {:induction false} RegisterAllUntouched(jobs: map<string, Job>, es: seq<Element>, k: string)
    requires forall j :: 0 <= j < |es| && Active(es[j]) ==> IdOf(es[j]) != k
    ensures k in RegisterAll(jobs, es) <==> k in jobs
    ensures k in jobs ==> RegisterAll(jobs, es)[k] == jobs[k]
    decreases |es|
  {
    if es != [] {
      assert forall j :: 0 <= j < |es[1..]| ==> es[1..][j] == es[j + 1];
      RegisterAllUntouched(Apply(jobs, es[0]), es[1..], k);
    }
  }

  /** Among active elements with one id, the last one's job is the one registered. */
  lemma {:induction false} RegisterAllLastWins(jobs: map<string, Job>, es: seq<Element>, i: nat)
    requires i < |es| && Active(es[i])
    requires forall j :: i < j < |es| && Active(es[j]) ==> IdOf(es[j]) != IdOf(es[i])
    ensures IdOf(es[i]) in RegisterAll(jobs, es) && RegisterAll(jobs, es)[IdOf(es[i])] == JobOf(es[i])
    decreases |es|
  {
    assert forall j :: 0 <= j < |es[1..]| ==> es[1..][j] == es[j + 1];
    if i == 0 {
      RegisterAllUntouched(Apply(jobs, es[0]), es[1..], IdOf(es[0]));
    } else {
      RegisterAllLastWins(Apply(jobs, es[0]), es[1..], i - 1);
    }
  }

  /** The ids in the registry afterwards: the earlier ones and those of the active elements. */
  lemma {:induction false} RegisterAllKeys(jobs: map<string, Job>, es: seq<Element>, k: string)
    ensures k in RegisterAll(jobs, es) <==>
      k in jobs || exists j :: 0 <= j < |es| && Active(es[j]) && IdOf(es[j]) == k
    decreases |es|
  {
    if es != [] {
      assert forall j :: 0 <= j < |es[1..]| ==> es[1..][j] == es[j + 1];
      RegisterAllKeys(Apply(jobs, es[0]), es[1..], k);
      if exists j :: 0 <= j < |es| && Active(es[j]) && IdOf(es[j]) == k {
        var j :| 0 <= j < |es| && Active(es[j]) && IdOf(es[j]) == k;
        if j > 0 {
          assert es[1..][j - 1] == es[j];
        }
      }
    }
  }

  /** With distinct, new ids every active element adds one job. */
  lemma {:induction false} RegisterAllCount(jobs: map<string, Job>, es: seq<Element>)
    requires DistinctIds(es)
    requires forall j :: 0 <= j < |es| && Active(es[j]) ==> IdOf(es[j]) !in jobs
    ensures |RegisterAll(jobs, es)| == |jobs| + ActiveCount(es)
    decreases |es|
  {
    if es != [] {
      var e := es[0];
      var jobs' := Apply(jobs, e);
      assert forall j :: 0 <= j < |es[1..]| ==> es[1..][j] == es[j + 1];
      if Active(e) {
        assert jobs'.Keys == jobs.Keys + {IdOf(e)};
        assert |jobs'| == |jobs| + 1;
      }
      forall j | 0 <= j < |es[1..]| && Active(es[1..][j])
        ensures IdOf(es[1..][j]) !in jobs'
      {
        assert es[1..][j] == es[j + 1];
      }
      RegisterAllCount(jobs', es[1..]);
    }
  }

  // ---------------------------------------------------------------------------
  // What a reload does, stated on ReloadEffect.

  /** With no store file a reload does nothing and logs nothing. */
  lemma MissingStoreDoesNothing(jobs: map<string, Job>, log: seq<LogRecord>)
    ensures ReloadEffect(jobs, log, Missing) == LoadState(jobs, log, false)
  {
  }

  /** One corrupt datetime among otherwise valid elements with distinct ids: all
      the others are activated and exactly one "Skipped invalid job" record is written. */
  lemma OneRejectedAmongValid(log: seq<LogRecord>, es: seq<Element>, k: nat)
    requires k < |es| && Rejected(es[k]) && DistinctIds(es)
    requires forall j :: 0 <= j < |es| && j != k ==> Active(es[j])
    ensures var r := ReloadEffect(map[], log, Present(es));
      |r.jobs| == |es| - 1 && r.log == log + [Skipped(es[k])] && !r.aborted
  {
    assert NoNonRecord(es) by {
      forall i | 0 <= i < |es| ensures !es[i].NonRecord? {
        if i != k { assert Active(es[i]); } else { assert Rejected(es[i]); }
      }
    }
    FoldWithoutFailure(LoadState(map[], log, false), es);
    RegisterAllCount(map[], es);
    CountWithOneRejected(es, k);
  }

  lemma {:induction false} CountWithOneRejected(es: seq<Element>, k: nat)
    requires k < |es| && Rejected(es[k])
    requires forall j :: 0 <= j < |es| && j != k ==> Active(es[j])
    ensures ActiveCount(es) == |es| - 1 && Skips(es) == [Skipped(es[k])]
    decreases |es|
  {
    assert forall j :: 0 <= j < |es[1..]| ==> es[1..][j] == es[j + 1];
    if k == 0 {
      AllActive(es[1..]);
    } else {
      CountWithOneRejected(es[1..], k - 1);
    }
  }

  lemma {:induction false} AllActive(es: seq<Element>)
    requires forall j :: 0 <= j < |es| ==> Active(es[j])
    ensures ActiveCount(es) == |es| && Skips(es) == []
    decreases |es|
  {
    if es != [] {
      assert forall j :: 0 <= j < |es[1..]| ==> es[1..][j] == es[j + 1];
      AllActive(es[1..]);
    }
  }

  /** Every element is a string or a list. */
  predicate AllSequences(es: seq<Element>)
  {
    forall i :: 0 <= i < |es| ==> es[i].Sequence?
  }

  /** Strings and lists register nothing. */
  lemma {:induction false} RegisterAllIgnoresSequences(jobs: map<string, Job>, es: seq<Element>)
    requires AllSequences(es)
    ensures RegisterAll(jobs, es) == jobs
    decreases |es|
  {
    if es != [] {
      assert AllSequences(es[1..]) by {
        forall i | 0 <= i < |es[1..]| ensures es[1..][i].Sequence? { assert es[1..][i] == es[i + 1]; }
      }
      RegisterAllIgnoresSequences(Apply(jobs, es[0]), es[1..]);
    }
  }

  /** Strings and lists without all three key names are passed over without a log line. */
  lemma {:induction false} NoSkipsWithoutKeys(es: seq<Element>)
    requires forall i :: 0 <= i < |es| ==> es[i] == Sequence(false)
    ensures Skips(es) == []
    decreases |es|
  {
    if es != [] {
      assert forall i :: 0 <= i < |es[1..]| ==> es[1..][i] == es[i + 1];
      NoSkipsWithoutKeys(es[1..]);
    }
  }

  /** A top-level object or string walks its keys or characters: nothing is
      registered, the walk is never cut short, and only keys holding all three key
      names are logged as skipped, so a string leaves the log as it was. */
  lemma NotAListRegistersNothing(jobs: map<string, Job>, log: seq<LogRecord>, f: StoreFile)
    requires f.NotAList?
    ensures ReloadEffect(jobs, log, f) == LoadState(jobs, log + Skips(Walked(f)), false)
    ensures (forall i :: 0 <= i < |f.keysHold| ==> !f.keysHold[i]) ==>
              ReloadEffect(jobs, log, f) == LoadState(jobs, log, false)
  {
    var es := Walked(f);
    assert NoNonRecord(es) && AllSequences(es);
    RegisterAllIgnoresSequences(jobs, es);
    FoldWithoutFailure(LoadState(jobs, log, false), es);
    if forall i :: 0 <= i < |f.keysHold| ==> !f.keysHold[i] {
      NoSkipsWithoutKeys(es);
      assert log + [] == log;
    }
  }

  /** Round trip with the store: after any stored elements none of which is a number,
      boolean or null, a valid entry appended by `save_schedule_to_file` is what the
      next reload registers for its id. */
  lemma SavedEntryIsReloaded(jobs: map<string, Job>, log: seq<LogRecord>, f: StoreFile,
                             freq: string, text: string, path: string)
    requires Writable(f) && NoNonRecord(Existing(f))
    requires IsFrequency(freq) && Parse(text).Some?
    ensures var r := ReloadEffect(jobs, log, Present(Existing(f) + [Entry(freq, text, path)]));
      JobId(path, freq) in r.jobs && r.jobs[JobId(path, freq)] == Job(Compile(freq, Parse(text).value).value, path)
  {
    var es := Existing(f) + [Entry(freq, text, path)];
    assert NoNonRecord(es);
    FoldWithoutFailure(LoadState(jobs, log, false), es);
    RegisterAllLastWins(jobs, es, |es| - 1);
  }

  // ---------------------------------------------------------------------------

  /** `load_and_reschedule()` over the registry, the store and the log. The store
      is only read. */
  method Reload(reg: JobRegistry, store: ScheduleStore, log: Logger)
    modifies reg, log
    ensures reg.jobs == ReloadEffect(old(reg.jobs), old(log.records), store.file).jobs
    ensures log.records == ReloadEffect(old(reg.jobs), old(log.records), store.file).log
    ensures old(WellKeyed(reg.jobs)) ==> WellKeyed(reg.jobs)
  {
    if store.file.Missing? {
      return;
    }
    if store.file.Malformed? {
      log.Append(LoadFailed);
      return;
    }
    var es := Walked(store.file);
    assert ReloadEffect(old(reg.jobs), old(log.records), store.file)
        == Fold(LoadState(old(reg.jobs), old(log.records), false), es);
    var i := 0;
    while i < |es|
      invariant 0 <= i <= |es|
      invariant Fold(LoadState(old(reg.jobs), old(log.records), false), es)
             == Fold(LoadState(reg.jobs, log.records, false), es[i..])
      invariant old(WellKeyed(reg.jobs)) ==> WellKeyed(reg.jobs)
    {
      var job := es[i];
      assert es[i..][0] == job && es[i..][1..] == es[i + 1..];
      ghost var s := LoadState(reg.jobs, log.records, false);
      match job {
        case NonRecord =>
          log.Append(LoadFailed);
          assert Fold(Step(s, job), es[i + 1..]) == LoadState(reg.jobs, log.records, true);
          return;
        case Sequence(holdsKeys) =>
          if holdsKeys {
            log.Append(Skipped(job));
          }
        case Record(freq, text, path) =>
          if freq.Some? && text.Some? && path.Some? {
            if Parse(text.value).None? {
              log.Append(Skipped(job));
            } else {
              var parsed := reg.ScheduleTask(freq.value, text.value, path.value);
            }
          }
      }
      assert Step(s, job) == LoadState(reg.jobs, log.records, false);
      i := i + 1;
    }
  }
}
