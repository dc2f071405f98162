/**
 Publication of one version to GitHub by any number of concurrent jobs, following
 `_upload_to_github` in qcom/scripts/upleveling/qnn_ep_uplevel.py.

 Each job works in a clone of its own and all share one remote. A step of the system is one git
 or gh command of one job, so a schedule of events is an interleaving. The remote commands are
 atomic: a push creates the tag if it is absent and fails if it is present, `gh release create`
 likewise for the release, and an upload replaces one asset. A tag is made or fetched only where
 there is no local one yet. Each of the commands from the first look at the tags to the uploads may
 also fail for reasons of its own, which an event says with its `fault` flag.
 */
module ReleasePublication {
  import opened Text
  import opened Wrappers

  // ---------------------------------------------------------------- jobs

  datatype Entry = Entry(name: string, isFile: bool, content: string)

  /** `title` holds the version numbers found in the title of the release notes, if there is one. */
  datatype Config = Config(suffix: string, listing: seq<Entry>, version: string, title: Option<seq<string>>)

  predicate Publishable(c: Config, e: Entry) {
    e.isFile && EndsWith(e.name, c.suffix) && !EndsWith(e.name, "-pdb.zip") && !EndsWith(e.name, "win-arm64ec.zip")
  }

  function Select(c: Config, listing: seq<Entry>): seq<Entry> {
    if listing == [] then []
    else (if Publishable(c, listing[0]) then [listing[0]] else []) + Select(c, listing[1..])
  }

  function Files(c: Config): seq<Entry> { Select(c, c.listing) }

  predicate NotesMatch(c: Config) {
    c.title.Some? ==> c.version in c.title.value
  }

  datatype Reason = NoFiles | MakeTagFailed | TagNotOnRemote | NotesMismatch | CreateFailed | UploadFailed(done: nat)

  datatype Stage =
    | Clone | List | CheckTag | MakeTag | Push | Fetch | VerifyTag
    | ViewRelease | CheckNotes | CreateRelease | Upload(done: nat)
    | Finished | Failed(reason: Reason)

  /** A tag object is identified by whoever made it. */
  datatype Job = Job(stage: Stage, localTag: Option<nat>)

  datatype Remote = Remote(tag: Option<nat>, releases: seq<nat>, assets: map<string, string>)

  datatype System = System(jobs: seq<Job>, remote: Remote)

  datatype Event = Event(job: nat, fault: bool)

  // ---------------------------------------------------------------- steps

  function Advance(c: Config, id: nat, j: Job, r: Remote, fault: bool): (Job, Remote) {
    match j.stage
    case Clone => (Job(List, r.tag), r)
    case List => (j.(stage := if Files(c) == [] then Failed(NoFiles) else CheckTag), r)
    case CheckTag => (j.(stage := if !fault && j.localTag.Some? then ViewRelease else MakeTag), r)
    case MakeTag =>
      if fault || j.localTag.Some? then (j.(stage := Failed(MakeTagFailed)), r) else (Job(Push, Some(id)), r)
    case Push =>
      if !fault && r.tag.None? then (j.(stage := ViewRelease), r.(tag := j.localTag))
      else (j.(stage := Fetch), r)
    case Fetch => (Job(VerifyTag, if !fault && j.localTag.None? then r.tag else j.localTag), r)
    case VerifyTag => (j.(stage := if !fault && j.localTag.Some? then ViewRelease else Failed(TagNotOnRemote)), r)
    case ViewRelease => (j.(stage := if !fault && r.releases != [] then Upload(0) else CheckNotes), r)
    case CheckNotes => (j.(stage := if NotesMatch(c) then CreateRelease else Failed(NotesMismatch)), r)
    case CreateRelease =>
      if fault then (j.(stage := Failed(CreateFailed)), r)
      else (j.(stage := Upload(0)), if r.releases == [] then r.(releases := [id]) else r)
    case Upload(k) =>
      if fault then (j.(stage := Failed(UploadFailed(k))), r)
      else if k >= |Files(c)| then (j.(stage := Finished), r)
      else
        var f := Files(c)[k];
        (j.(stage := if k + 1 == |Files(c)| then Finished else Upload(k + 1)), r.(assets := r.assets[f.name := f.content]))
    case Finished => (j, r)
    case Failed(_) => (j, r)
  }

  function Step(c: seq<Config>, s: System, e: Event): System
    requires |s.jobs| == |c|
  {
    if e.job >= |c| then s
    else
      var (j, r) := Advance(c[e.job], e.job, s.jobs[e.job], s.remote, e.fault);
      System(s.jobs[e.job := j], r)
  }

  function Run(c: seq<Config>, s: System, schedule: seq<Event>): (t: System)
    requires |s.jobs| == |c|
    ensures |t.jobs| == |c|
  {
    if schedule == [] then s
    else Step(c, Run(c, s, schedule[..|schedule| - 1]), schedule[|schedule| - 1])
  }

  function Start(c: seq<Config>, r: Remote): (s: System)
    ensures |s.jobs| == |c|
  {
    System(seq(|c|, _ => Job(Clone, None)), r)
  }

  // ---------------------------------------------------------------- invariants of every run

  predicate Attached(files: seq<Entry>, assets: map<string, string>) {
    forall k :: 0 <= k < |files| ==> files[k].name in assets
  }

  function Done(c: Config, j: Job): (n: nat)
    ensures n <= |Files(c)|
  {
    match j.stage
    case Upload(k) => if k <= |Files(c)| then k else 0
    case Finished => |Files(c)|
    case Failed(UploadFailed(k)) => if k <= |Files(c)| then k else 0
    case _ => 0
  }

  predicate JobOk(c: Config, id: nat, j: Job, r: Remote) {
    && (j.stage.Push? || j.stage.Fetch? || j.stage.VerifyTag? ==> j.localTag == Some(id))
    && (!j.stage.Clone? && !j.stage.List? && j.stage != Failed(NoFiles) ==> Files(c) != [])
    && (j.stage == Failed(NoFiles) ==> Files(c) == [])
    && (j.stage.Upload? ==> j.stage.done < |Files(c)|)
    && (j.stage.Upload? || j.stage.Finished? ==> r.releases != [])
    && Attached(Files(c)[..Done(c, j)], r.assets)
  }

  predicate Inv(c: seq<Config>, s: System) {
    && |s.jobs| == |c|
    && |s.remote.releases| <= 1
    && forall i :: 0 <= i < |c| ==> JobOk(c[i], i, s.jobs[i], s.remote)
  }

  /** The remote only ever gains: the tag is never moved, releases and assets are never taken away. */
  predicate Grows(r: Remote, r': Remote) {
    && (r.tag.Some? ==> r'.tag == r.tag)
    && r.releases <= r'.releases
    && r.assets.Keys <= r'.assets.Keys
  }

  lemma AdvanceKeeps(c: Config, id: nat, j: Job, r: Remote, fault: bool)
    requires JobOk(c, id, j, r) && |r.releases| <= 1
    ensures var (j', r') := Advance(c, id, j, r, fault);
            JobOk(c, id, j', r') && |r'.releases| <= 1 && Grows(r, r')
  {
    hide Files, NotesMatch;
    if j.stage.Upload? && !fault {
      UploadKeeps(c, id, j, r);
    }
  }

  lemma UploadKeeps(c: Config, id: nat, j: Job, r: Remote)
    requires JobOk(c, id, j, r) && j.stage.Upload?
    ensures var (j', r') := Advance(c, id, j, r, false);
            && Done(c, j') == j.stage.done + 1
            && Attached(Files(c)[..j.stage.done + 1], r'.assets)
  {
    var k, files := j.stage.done, Files(c);
    var f := files[k];
    assert forall i :: 0 <= i < k ==> files[..k][i] == files[i];
  }

  lemma OthersKeep(c: Config, id: nat, j: Job, r: Remote, r': Remote)
    requires JobOk(c, id, j, r) && Grows(r, r')
    ensures JobOk(c, id, j, r')
  {
  }

  lemma StepKeeps(c: seq<Config>, s: System, e: Event)
    requires Inv(c, s)
    ensures Inv(c, Step(c, s, e)) && Grows(s.remote, Step(c, s, e).remote)
  {
    if e.job < |c| {
      var t := Step(c, s, e);
      AdvanceKeeps(c[e.job], e.job, s.jobs[e.job], s.remote, e.fault);
      forall i | 0 <= i < |c| ensures JobOk(c[i], i, t.jobs[i], t.remote) {
        if i != e.job { OthersKeep(c[i], i, s.jobs[i], s.remote, t.remote); }
      }
    }
  }

  /** The system after the first k events. */
  function After(c: seq<Config>, r: Remote, schedule: seq<Event>, k: nat): (s: System)
    requires k <= |schedule|
    ensures |s.jobs| == |c|
  {
    Run(c, Start(c, r), schedule[..k])
  }

  lemma AfterStep(c: seq<Config>, r: Remote, schedule: seq<Event>, k: nat)
    requires k < |schedule|
    ensures After(c, r, schedule, k + 1) == Step(c, After(c, r, schedule, k), schedule[k])
  {
    assert schedule[..k + 1][..k] == schedule[..k];
  }

  lemma AfterAll(c: seq<Config>, r: Remote, schedule: seq<Event>)
    ensures After(c, r, schedule, |schedule|) == Run(c, Start(c, r), schedule) && After(c, r, schedule, 0) == Start(c, r)
  {
    assert schedule[..|schedule|] == schedule;
  }

  lemma {:induction false} SafeAfter(c: seq<Config>, r: Remote, schedule: seq<Event>, k: nat)
    requires |r.releases| <= 1 && k <= |schedule|
    ensures Inv(c, After(c, r, schedule, k))
  {
    if k == 0 {
      AfterAll(c, r, schedule);
    } else {
      hide Step, Inv;
      SafeAfter(c, r, schedule, k - 1);
      AfterStep(c, r, schedule, k - 1);
      StepKeeps(c, After(c, r, schedule, k - 1), schedule[k - 1]);
    }
  }

  lemma {:induction false} GrowsBetween(c: seq<Config>, r: Remote, schedule: seq<Event>, j: nat, k: nat)
    requires |r.releases| <= 1 && j <= k <= |schedule|
    ensures Grows(After(c, r, schedule, j).remote, After(c, r, schedule, k).remote)
    decreases k
  {
    if j < k {
      GrowsBetween(c, r, schedule, j, k - 1);
      SafeAfter(c, r, schedule, k - 1);
      AfterStep(c, r, schedule, k - 1);
      hide After, Step, Inv;
      StepKeeps(c, After(c, r, schedule, k - 1), schedule[k - 1]);
    }
  }

  /**
   At every point of every interleaving, faults included: there is at most one release, and every
   finished job has its files attached. Between any two points the tag on the remote, once there,
   has not moved, and neither releases nor assets have been taken away.
   */
  lemma EveryRunIsSafe(c: seq<Config>, r: Remote, schedule: seq<Event>)
    requires |r.releases| <= 1
    ensures forall k :: 0 <= k <= |schedule| ==> Inv(c, After(c, r, schedule, k))
    ensures forall j, k :: 0 <= j <= k <= |schedule| ==> Grows(After(c, r, schedule, j).remote, After(c, r, schedule, k).remote)
    ensures Inv(c, Run(c, Start(c, r), schedule))
  {
    hide Inv, Grows, After;
    forall k | 0 <= k <= |schedule| ensures Inv(c, After(c, r, schedule, k)) { SafeAfter(c, r, schedule, k); }
    forall j, k | 0 <= j <= k <= |schedule| ensures Grows(After(c, r, schedule, j).remote, After(c, r, schedule, k).remote) {
      GrowsBetween(c, r, schedule, j, k);
    }
    AfterAll(c, r, schedule);
  }

  // ---------------------------------------------------------------- every fair run completes

  predicate Stopped(j: Job) { j.stage.Finished? || j.stage.Failed? }

  /** Commands a job has at most still to issue. */
  function Rank(c: Config, j: Job): nat {
    var n := |Files(c)|;
    match j.stage
    case Clone => n + 11
    case List => n + 10
    case CheckTag => n + 9
    case MakeTag => n + 8
    case Push => n + 7
    case Fetch => n + 6
    case VerifyTag => n + 5
    case ViewRelease => n + 4
    case CheckNotes => n + 3
    case CreateRelease => n + 2
    case Upload(k) => if k < n then n - k else 1
    case Finished => 0
    case Failed(_) => 0
  }

  function Turns(schedule: seq<Event>, i: nat): nat {
    if schedule == [] then 0
    else Turns(schedule[..|schedule| - 1], i) + if schedule[|schedule| - 1].job == i then 1 else 0
  }

  lemma {:induction false} RankFalls(c: seq<Config>, r: Remote, schedule: seq<Event>, i: nat)
    requires i < |c|
    ensures var j := Run(c, Start(c, r), schedule).jobs[i];
            Stopped(j) || Rank(c[i], j) + Turns(schedule, i) <= |Files(c[i])| + 11
  {
    hide Files, Advance, Rank;
    if schedule == [] {
      RankAtStart(c[i]);
    } else {
      var before := schedule[..|schedule| - 1];
      RankFalls(c, r, before, i);
      var s, e := Run(c, Start(c, r), before), schedule[|schedule| - 1];
      if e.job == i { AdvanceRank(c[i], i, s.jobs[i], s.remote, e.fault); }
    }
  }

  lemma RankAtStart(c: Config)
    ensures Rank(c, Job(Clone, None)) == |Files(c)| + 11
  {
  }

  lemma AdvanceRank(c: Config, id: nat, j: Job, r: Remote, fault: bool)
    ensures var j' := Advance(c, id, j, r, fault).0; if Stopped(j) then j' == j else Rank(c, j') < Rank(c, j)
  {
    hide Files, NotesMatch;
  }

  /** No job ever waits for another: after |files| + 11 turns of its own it has stopped. */
  lemma JobsStop(c: seq<Config>, r: Remote, schedule: seq<Event>, i: nat)
    requires i < |c| && Turns(schedule, i) >= |Files(c[i])| + 11
    ensures Stopped(Run(c, Start(c, r), schedule).jobs[i])
  {
    RankFalls(c, r, schedule, i);
  }

  // ---------------------------------------------------------------- why a job fails

  /** A fault of the next command makes the job fail, now or at its next command. */
  predicate Delicate(j: Job) {
    j.stage.MakeTag? || j.stage.VerifyTag? || j.stage.CreateRelease? || j.stage.Upload? || (j.stage.CheckTag? && j.localTag.Some?)
  }

  /** The next turn of the job decides that it fails: it has no files, stale notes, or a fault of its own. */
  predicate Fatal(c: Config, j: Job, fault: bool) {
    (j.stage.List? && Files(c) == []) || (j.stage.CheckNotes? && !NotesMatch(c)) || (fault && Delicate(j))
  }

  predicate FatalAt(c: seq<Config>, r: Remote, schedule: seq<Event>, i: nat, p: int)
    requires i < |c|
  {
    && 0 <= p < |schedule| && schedule[p].job == i
    && Fatal(c[i], After(c, r, schedule, p).jobs[i], schedule[p].fault)
  }

  /** Failed, or about to make a tag that is there already. */
  predicate Doomed(j: Job) { j.stage.Failed? || (j.stage.MakeTag? && j.localTag.Some?) }

  lemma AdvanceDooms(c: Config, id: nat, j: Job, r: Remote, fault: bool)
    requires JobOk(c, id, j, r)
    ensures Doomed(Advance(c, id, j, r, fault).0) <==> Doomed(j) || Fatal(c, j, fault)
  {
    hide Files, Attached, NotesMatch;
  }

  lemma {:induction false} DoomedAfter(c: seq<Config>, r: Remote, schedule: seq<Event>, i: nat, k: nat)
    requires |r.releases| <= 1 && i < |c| && k <= |schedule|
    ensures Doomed(After(c, r, schedule, k).jobs[i]) <==> exists p :: p < k && FatalAt(c, r, schedule, i, p)
  {
    if k == 0 {
      AfterAll(c, r, schedule);
    } else {
      DoomedAfter(c, r, schedule, i, k - 1);
      SafeAfter(c, r, schedule, k - 1);
      AfterStep(c, r, schedule, k - 1);
      hide After, Doomed, Fatal, JobOk, Advance, Run;
      var s, e := After(c, r, schedule, k - 1), schedule[k - 1];
      if e.job == i {
        AdvanceDooms(c[i], i, s.jobs[i], s.remote, e.fault);
        assert FatalAt(c, r, schedule, i, k - 1) <==> Fatal(c[i], s.jobs[i], e.fault);
      }
    }
  }

  /**
   In every interleaving, with any faults of any job, a job that has stopped has failed exactly when
   one of its own turns was fatal: no other job makes it fail.
   */
  lemma FailsExactlyByOwnTurn(c: seq<Config>, r: Remote, schedule: seq<Event>, i: nat)
    requires |r.releases| <= 1 && i < |c|
    ensures var j := Run(c, Start(c, r), schedule).jobs[i];
            && (j.stage.Failed? ==> exists p :: FatalAt(c, r, schedule, i, p))
            && (Stopped(j) ==> (j.stage.Failed? <==> exists p :: FatalAt(c, r, schedule, i, p)))
  {
    DoomedAfter(c, r, schedule, i, |schedule|);
    AfterAll(c, r, schedule);
    hide After, Fatal, Run;
  }

  /** The p-th event is the turn of the job that the reason speaks of. */
  predicate BlamedAt(c: seq<Config>, r: Remote, schedule: seq<Event>, i: nat, p: int, reason: Reason)
    requires i < |c|
  {
    && 0 <= p < |schedule| && schedule[p].job == i
    && Blames(c[i], After(c, r, schedule, p).jobs[i], schedule[p].fault, reason)
  }

  predicate Blames(c: Config, j: Job, fault: bool, reason: Reason) {
    match reason
    case NoFiles => j.stage.List? && Files(c) == []
    case MakeTagFailed => fault && (j.stage.MakeTag? || (j.stage.CheckTag? && j.localTag.Some?))
    case TagNotOnRemote => fault && j.stage.VerifyTag?
    case NotesMismatch => j.stage.CheckNotes? && !NotesMatch(c)
    case CreateFailed => fault && j.stage.CreateRelease?
    case UploadFailed(k) => fault && j.stage == Upload(k)
  }

  /** What the job would give as its reason, if it has failed or is about to. */
  function ReasonOf(j: Job): Option<Reason> {
    if j.stage.Failed? then Some(j.stage.reason)
    else if j.stage.MakeTag? && j.localTag.Some? then Some(MakeTagFailed)
    else None
  }

  lemma AdvanceBlames(c: Config, id: nat, j: Job, r: Remote, fault: bool)
    requires JobOk(c, id, j, r)
    ensures var j' := Advance(c, id, j, r, fault).0;
            ReasonOf(j').Some? ==> ReasonOf(j') == ReasonOf(j) || Blames(c, j, fault, ReasonOf(j').value)
  {
    hide Files, Attached, NotesMatch;
  }

  /** The reason of a failed job is that of one of its own turns, at the command that the reason names. */
  lemma {:induction false} FailsForItsReason(c: seq<Config>, r: Remote, schedule: seq<Event>, i: nat, k: nat)
    requires |r.releases| <= 1 && i < |c| && k <= |schedule|
    ensures var reason := ReasonOf(After(c, r, schedule, k).jobs[i]);
            reason.Some? ==> exists p :: p < k && BlamedAt(c, r, schedule, i, p, reason.value)
  {
    if k == 0 {
      AfterAll(c, r, schedule);
    } else {
      FailsForItsReason(c, r, schedule, i, k - 1);
      SafeAfter(c, r, schedule, k - 1);
      AfterStep(c, r, schedule, k - 1);
      hide After, ReasonOf, Blames, JobOk, Advance, Run;
      var s, e := After(c, r, schedule, k - 1), schedule[k - 1];
      var reason := ReasonOf(After(c, r, schedule, k).jobs[i]);
      if e.job == i && reason.Some? {
        AdvanceBlames(c[i], i, s.jobs[i], s.remote, e.fault);
        assert BlamedAt(c, r, schedule, i, k - 1, reason.value) <==> Blames(c[i], s.jobs[i], e.fault, reason.value);
      }
    }
  }

  ghost predicate OwnFault(schedule: seq<Event>, i: nat) {
    exists p :: 0 <= p < |schedule| && schedule[p].job == i && schedule[p].fault
  }

  /** Whatever the others do, a job with files and matching notes that meets no fault of its own does not fail. */
  lemma NoJobFailsThroughAnother(c: seq<Config>, r: Remote, schedule: seq<Event>, i: nat)
    requires |r.releases| <= 1 && i < |c| && Files(c[i]) != [] && NotesMatch(c[i]) && !OwnFault(schedule, i)
    ensures !Run(c, Start(c, r), schedule).jobs[i].stage.Failed?
    ensures Turns(schedule, i) >= |Files(c[i])| + 11 ==> Run(c, Start(c, r), schedule).jobs[i].stage.Finished?
  {
    hide Run, Files, NotesMatch, After, Turns;
    FailsExactlyByOwnTurn(c, r, schedule, i);
    if Turns(schedule, i) >= |Files(c[i])| + 11 { JobsStop(c, r, schedule, i); }
  }

  // ---------------------------------------------------------------- the tag on the remote

  predicate PushGoesThrough(c: seq<Config>, s: System, e: Event)
    requires |s.jobs| == |c|
  {
    e.job < |c| && s.jobs[e.job].stage.Push? && !e.fault
  }

  /** The p-th event is a push whose command goes through; it sets the tag unless there is one. */
  predicate PushedAt(c: seq<Config>, r: Remote, schedule: seq<Event>, p: int) {
    0 <= p < |schedule| && PushGoesThrough(c, After(c, r, schedule, p), schedule[p])
  }

  ghost predicate FirstPushAt(c: seq<Config>, r: Remote, schedule: seq<Event>, p: int) {
    PushedAt(c, r, schedule, p) && forall q :: q < p ==> !PushedAt(c, r, schedule, q)
  }

  lemma PushTags(c: seq<Config>, s: System, e: Event)
    requires Inv(c, s)
    ensures Step(c, s, e).remote.tag ==
            if s.remote.tag.None? && PushGoesThrough(c, s, e) then Some(e.job) else s.remote.tag
  {
    if e.job < |c| { assert JobOk(c[e.job], e.job, s.jobs[e.job], s.remote); }
    hide Files, Attached;
  }

  lemma {:induction false} TaggedAfter(c: seq<Config>, r: Remote, schedule: seq<Event>, k: nat)
    requires |r.releases| <= 1 && k <= |schedule|
    ensures After(c, r, schedule, k).remote.tag.Some? <==> r.tag.Some? || exists p :: p < k && PushedAt(c, r, schedule, p)
  {
    if k == 0 {
      AfterAll(c, r, schedule);
    } else {
      TaggedAfter(c, r, schedule, k - 1);
      SafeAfter(c, r, schedule, k - 1);
      AfterStep(c, r, schedule, k - 1);
      hide After, Step, Inv, PushGoesThrough;
      PushTags(c, After(c, r, schedule, k - 1), schedule[k - 1]);
      assert PushedAt(c, r, schedule, k - 1) <==> PushGoesThrough(c, After(c, r, schedule, k - 1), schedule[k - 1]);
    }
  }

  /**
   The remote ends up tagged exactly when it was tagged already or the command of some push went
   through. The tag is then the one it had, or that of the job whose push was the first to go through.
   */
  lemma TaggedByFirstPush(c: seq<Config>, r: Remote, schedule: seq<Event>)
    requires |r.releases| <= 1
    ensures var tag := Run(c, Start(c, r), schedule).remote.tag;
            && (tag.Some? <==> r.tag.Some? || exists p :: PushedAt(c, r, schedule, p))
            && (r.tag.Some? ==> tag == r.tag)
            && (r.tag.None? ==> forall p :: FirstPushAt(c, r, schedule, p) ==> tag == Some(schedule[p].job))
  {
    hide After, Run, PushGoesThrough;
    var n := |schedule|;
    TaggedAfter(c, r, schedule, n);
    AfterAll(c, r, schedule);
    GrowsBetween(c, r, schedule, 0, n);
    if r.tag.None? {
      forall p | FirstPushAt(c, r, schedule, p)
        ensures Run(c, Start(c, r), schedule).remote.tag == Some(schedule[p].job)
      {
        FirstPushTags(c, r, schedule, p);
        GrowsBetween(c, r, schedule, p + 1, n);
      }
    }
  }

  lemma FirstPushTags(c: seq<Config>, r: Remote, schedule: seq<Event>, p: nat)
    requires |r.releases| <= 1 && r.tag.None? && p < |schedule|
    ensures FirstPushAt(c, r, schedule, p) ==> After(c, r, schedule, p + 1).remote.tag == Some(schedule[p].job)
  {
    TaggedAfter(c, r, schedule, p);
    SafeAfter(c, r, schedule, p);
    AfterStep(c, r, schedule, p);
    hide After, Step, Inv;
    PushTags(c, After(c, r, schedule, p), schedule[p]);
  }

  /**
   The check after a failed push looks at the tag the job has made itself. So when no push goes
   through, in any interleaving of any number of jobs, every job without a fatal turn of its own still
   finishes, with a release and its files but without a tag on the remote.
   */
  lemma LostPushesGoUnnoticed(c: seq<Config>, r: Remote, schedule: seq<Event>, i: nat)
    requires |r.releases| <= 1 && r.tag.None? && i < |c| && Turns(schedule, i) >= |Files(c[i])| + 11
    ensures (forall p :: !PushedAt(c, r, schedule, p)) && (forall p :: !FatalAt(c, r, schedule, i, p)) ==>
            var s := Run(c, Start(c, r), schedule);
            && s.jobs[i].stage.Finished? && s.remote.tag.None?
            && |s.remote.releases| == 1 && Attached(Files(c[i]), s.remote.assets)
  {
    hide Run, Files, Turns, PushedAt, FatalAt, Attached;
    var s := Run(c, Start(c, r), schedule);
    TaggedByFirstPush(c, r, schedule);
    FailsExactlyByOwnTurn(c, r, schedule, i);
    JobsStop(c, r, schedule, i);
    EveryRunIsSafe(c, r, schedule);
    assert JobOk(c[i], i, s.jobs[i], s.remote);
    assert Files(c[i])[..|Files(c[i])|] == Files(c[i]);
  }

  lemma RunSnoc(c: seq<Config>, s: System, p: seq<Event>, e: Event)
    requires |s.jobs| == |c|
    ensures Run(c, s, p + [e]) == Step(c, Run(c, s, p), e)
  {
    assert (p + [e])[..|p|] == p;
  }

  function Turn(fault: bool): Event { Event(0, fault) }

  lemma RunTurn(c: Config, r: Remote, p: seq<Event>, j: Job, fault: bool, next: Job)
    ensures Run([c], Start([c], r), p) == System([j], r) && Advance(c, 0, j, r, fault) == (next, r) ==>
            Run([c], Start([c], r), p + [Turn(fault)]) == System([next], r)
  {
    hide Advance, Run;
    RunSnoc([c], Start([c], r), p, Turn(fault));
    assert [j][0 := next] == [next];
  }

  const LostPush: seq<Event> := [Turn(false), Turn(false), Turn(false), Turn(false), Turn(true), Turn(false), Turn(false)]

  /** Such a run: the push of a single job fails, and the job goes on to the release. */
  lemma LostPushExists(c: Config, r: Remote)
    requires Files(c) != [] && r.tag.None?
    ensures Run([c], Start([c], r), LostPush) == System([Job(ViewRelease, Some(0))], r)
  {
    assert Start([c], r).jobs == [Job(Clone, None)];
    assert Run([c], Start([c], r), []) == Start([c], r);
    hide Run, Files, Start;
    RunTurn(c, r, [], Job(Clone, None), false, Job(List, None));
    var p1 := [] + [Turn(false)];
    RunTurn(c, r, p1, Job(List, None), false, Job(CheckTag, None));
    var p2 := p1 + [Turn(false)];
    RunTurn(c, r, p2, Job(CheckTag, None), false, Job(MakeTag, None));
    var p3 := p2 + [Turn(false)];
    RunTurn(c, r, p3, Job(MakeTag, None), false, Job(Push, Some(0)));
    var p4 := p3 + [Turn(false)];
    RunTurn(c, r, p4, Job(Push, Some(0)), true, Job(Fetch, Some(0)));
    var p5 := p4 + [Turn(true)];
    RunTurn(c, r, p5, Job(Fetch, Some(0)), false, Job(VerifyTag, Some(0)));
    var p6 := p5 + [Turn(false)];
    RunTurn(c, r, p6, Job(VerifyTag, Some(0)), false, Job(ViewRelease, Some(0)));
    assert p6 + [Turn(false)] == LostPush;
  }

  // ---------------------------------------------------------------- runs without faults

  predicate FaultFree(schedule: seq<Event>) {
    forall k :: 0 <= k < |schedule| ==> !schedule[k].fault
  }

  predicate TagKnown(c: Config, j: Job, r: Remote) {
    match j.stage
    case Clone | MakeTag | Push | Failed(_) => true
    case List | CheckTag => j.localTag.Some? ==> r.tag.Some?
    case _ => r.tag.Some?
  }

  lemma {:induction false} FaultFreeTagged(c: seq<Config>, r: Remote, schedule: seq<Event>)
    requires |r.releases| <= 1 && FaultFree(schedule)
    ensures var s := Run(c, Start(c, r), schedule); forall i :: 0 <= i < |c| ==> TagKnown(c[i], s.jobs[i], s.remote)
  {
    if schedule == [] {
    } else {
      var before, e := schedule[..|schedule| - 1], schedule[|schedule| - 1];
      FaultFreeTagged(c, r, before);
      EveryRunIsSafe(c, r, before);
      var s := Run(c, Start(c, r), before);
      StepKeeps(c, s, e);
      var t := Step(c, s, e);
      forall i | 0 <= i < |c| ensures TagKnown(c[i], t.jobs[i], t.remote) {
        assert TagKnown(c[i], s.jobs[i], s.remote) && JobOk(c[i], i, s.jobs[i], s.remote);
      }
    }
  }

  // ---------------------------------------------------------------- the published assets

  /** No two published files, of one job or of two, have the same name. */
  ghost predicate DistinctNames(c: seq<Config>) {
    forall i, k, j, l :: (0 <= i < |c| && 0 <= k < |Files(c[i])| && 0 <= j < |c| && 0 <= l < |Files(c[j])|
                          && Files(c[i])[k].name == Files(c[j])[l].name) ==> i == j && k == l
  }

  ghost predicate UploadedAs(c: seq<Config>, jobs: seq<Job>, i: int, k: int, name: string)
    requires |jobs| == |c|
  {
    0 <= i < |c| && 0 <= k < Done(c[i], jobs[i]) && Files(c[i])[k].name == name
  }

  ghost predicate Uploaded(c: seq<Config>, jobs: seq<Job>, name: string)
    requires |jobs| == |c|
  {
    exists i, k :: UploadedAs(c, jobs, i, k, name)
  }

  /** The assets are the earlier ones, overwritten by the files uploaded so far. */
  ghost predicate AssetsExact(c: seq<Config>, r: Remote, s: System)
    requires |s.jobs| == |c|
  {
    var assets := s.remote.assets;
    && (forall name :: name in assets <==> name in r.assets || Uploaded(c, s.jobs, name))
    && (forall name :: name in r.assets && !Uploaded(c, s.jobs, name) ==> assets[name] == r.assets[name])
    && (forall i, k, name :: UploadedAs(c, s.jobs, i, k, name) ==> assets[name] == Files(c[i])[k].content)
  }

  /** A step either leaves assets and progress alone or uploads the job's next file. */
  lemma AdvanceUploads(c: Config, id: nat, j: Job, r: Remote, fault: bool)
    requires JobOk(c, id, j, r)
    ensures var (j', r') := Advance(c, id, j, r, fault);
            if j.stage.Upload? && !fault then
              var n := Done(c, j);
              && n < |Files(c)| && Done(c, j') == n + 1
              && r'.assets == r.assets[Files(c)[n].name := Files(c)[n].content]
            else
              Done(c, j') == Done(c, j) && r'.assets == r.assets
  {
    if j.stage.Upload? && !fault { UploadKeeps(c, id, j, r); }
  }

  lemma StepExact(c: seq<Config>, r: Remote, s: System, e: Event)
    requires Inv(c, s) && DistinctNames(c) && AssetsExact(c, r, s)
    ensures AssetsExact(c, r, Step(c, s, e))
  {
    var t := Step(c, s, e);
    if e.job < |c| {
      var i := e.job;
      AdvanceUploads(c[i], i, s.jobs[i], s.remote, e.fault);
      if s.jobs[i].stage.Upload? && !e.fault {
        UploadExact(c, r, s, t, i, Done(c[i], s.jobs[i]));
      } else {
        forall a, k, name ensures UploadedAs(c, t.jobs, a, k, name) <==> UploadedAs(c, s.jobs, a, k, name) { }
        forall name ensures Uploaded(c, t.jobs, name) <==> Uploaded(c, s.jobs, name) { }
      }
    }
  }

  lemma UploadExact(c: seq<Config>, r: Remote, s: System, t: System, i: nat, n: nat)
    requires |s.jobs| == |t.jobs| == |c| && i < |c| && DistinctNames(c) && AssetsExact(c, r, s)
    requires forall a :: 0 <= a < |c| && a != i ==> t.jobs[a] == s.jobs[a]
    requires n == Done(c[i], s.jobs[i]) < |Files(c[i])| && Done(c[i], t.jobs[i]) == n + 1
    requires t.remote.assets == s.remote.assets[Files(c[i])[n].name := Files(c[i])[n].content]
    ensures AssetsExact(c, r, t)
  {
    var f := Files(c[i])[n];
    forall a, k, name
      ensures UploadedAs(c, t.jobs, a, k, name) <==> UploadedAs(c, s.jobs, a, k, name) || (a == i && k == n && name == f.name)
    { }
    forall name
      ensures Uploaded(c, t.jobs, name) <==> Uploaded(c, s.jobs, name) || name == f.name
    {
      assert UploadedAs(c, t.jobs, i, n, f.name);
      if Uploaded(c, t.jobs, name) && name != f.name {
        var a, k :| UploadedAs(c, t.jobs, a, k, name);
        assert UploadedAs(c, s.jobs, a, k, name);
      }
      if Uploaded(c, s.jobs, name) {
        var a, k :| UploadedAs(c, s.jobs, a, k, name);
        assert UploadedAs(c, t.jobs, a, k, name);
      }
    }
  }

  lemma {:induction false} RunExact(c: seq<Config>, r: Remote, schedule: seq<Event>)
    requires |r.releases| <= 1 && DistinctNames(c)
    ensures AssetsExact(c, r, Run(c, Start(c, r), schedule))
  {
    if schedule == [] {
      forall name ensures !Uploaded(c, Start(c, r).jobs, name) { }
    } else {
      var before := schedule[..|schedule| - 1];
      EveryRunIsSafe(c, r, before);
      RunExact(c, r, before);
      StepExact(c, r, Run(c, Start(c, r), before), schedule[|schedule| - 1]);
    }
  }

  // ---------------------------------------------------------------- complete runs

  predicate Complete(s: System) {
    forall i :: 0 <= i < |s.jobs| ==> Stopped(s.jobs[i])
  }

  /**
   Without faults, when every job has files and matching notes, every complete interleaving ends
   with all jobs finished, the tag on the remote, exactly one release, and the assets determined.
   */
  lemma CompleteRunsPublish(c: seq<Config>, r: Remote, schedule: seq<Event>)
    requires |r.releases| <= 1 && c != [] && DistinctNames(c) && FaultFree(schedule)
    requires forall i :: 0 <= i < |c| ==> Files(c[i]) != [] && NotesMatch(c[i])
    requires Complete(Run(c, Start(c, r), schedule))
    ensures var s := Run(c, Start(c, r), schedule);
            && (forall i :: 0 <= i < |c| ==> s.jobs[i].stage.Finished?)
            && s.remote.tag.Some? && |s.remote.releases| == 1
            && AssetsExact(c, r, s)
            && (forall i, e :: (0 <= i < |c| && e in c[i].listing && e.isFile && EndsWith(e.name, c[i].suffix)
                                && !EndsWith(e.name, "-pdb.zip") && !EndsWith(e.name, "win-arm64ec.zip")) ==>
                               e.name in s.remote.assets && s.remote.assets[e.name] == e.content)
  {
    hide EndsWith, Run, Files, NotesMatch, DistinctNames;
    forall i, e | (0 <= i < |c| && e in c[i].listing && e.isFile && EndsWith(e.name, c[i].suffix)
                   && !EndsWith(e.name, "-pdb.zip") && !EndsWith(e.name, "win-arm64ec.zip"))
      ensures var s := Run(c, Start(c, r), schedule);
              s.jobs[i].stage.Finished? ==> e.name in s.remote.assets && s.remote.assets[e.name] == e.content
    {
      FinishedHasPublished(c, r, schedule, i, e);
    }
    var s := Run(c, Start(c, r), schedule);
    EveryRunIsSafe(c, r, schedule);
    FaultFreeTagged(c, r, schedule);
    RunExact(c, r, schedule);
    forall i | 0 <= i < |c| ensures s.jobs[i].stage.Finished? {
      NoJobFailsThroughAnother(c, r, schedule, i);
      assert Stopped(s.jobs[i]);
    }
    assert JobOk(c[0], 0, s.jobs[0], s.remote) && TagKnown(c[0], s.jobs[0], s.remote);
  }

  /** What is published does not depend on the interleaving. */
  lemma PublicationIsScheduleIndependent(c: seq<Config>, r: Remote, one: seq<Event>, two: seq<Event>)
    requires |r.releases| <= 1 && c != [] && DistinctNames(c) && FaultFree(one) && FaultFree(two)
    requires forall i :: 0 <= i < |c| ==> Files(c[i]) != [] && NotesMatch(c[i])
    requires Complete(Run(c, Start(c, r), one)) && Complete(Run(c, Start(c, r), two))
    ensures Run(c, Start(c, r), one).remote.assets == Run(c, Start(c, r), two).remote.assets
  {
    CompleteRunsPublish(c, r, one);
    CompleteRunsPublish(c, r, two);
    ExactAgree(c, r, Run(c, Start(c, r), one), Run(c, Start(c, r), two));
  }

  lemma ExactAgree(c: seq<Config>, r: Remote, s: System, t: System)
    requires |s.jobs| == |t.jobs| == |c| && AssetsExact(c, r, s) && AssetsExact(c, r, t)
    requires forall i :: 0 <= i < |c| ==> Done(c[i], s.jobs[i]) == Done(c[i], t.jobs[i])
    ensures s.remote.assets == t.remote.assets
  {
    forall name ensures Uploaded(c, s.jobs, name) <==> Uploaded(c, t.jobs, name) {
      if Uploaded(c, s.jobs, name) {
        var i, k :| UploadedAs(c, s.jobs, i, k, name);
        assert UploadedAs(c, t.jobs, i, k, name);
      }
      if Uploaded(c, t.jobs, name) {
        var i, k :| UploadedAs(c, t.jobs, i, k, name);
        assert UploadedAs(c, s.jobs, i, k, name);
      }
    }
    var a, b := s.remote.assets, t.remote.assets;
    forall name | name in a ensures a[name] == b[name] {
      if Uploaded(c, s.jobs, name) {
        var i, k :| UploadedAs(c, s.jobs, i, k, name);
        assert UploadedAs(c, t.jobs, i, k, name);
      }
    }
    assert a.Keys == b.Keys;
  }

  // ---------------------------------------------------------------- from the listing to the remote

  /** The published files are the files of the listing with the job's suffix, but neither symbols nor arm64ec. */
  lemma {:induction false} Selected(c: Config, listing: seq<Entry>, e: Entry)
    ensures e in Select(c, listing) <==>
            e in listing && e.isFile && EndsWith(e.name, c.suffix)
            && !EndsWith(e.name, "-pdb.zip") && !EndsWith(e.name, "win-arm64ec.zip")
  {
    hide EndsWith;
    if listing == [] {
    } else {
      Selected(c, listing[1..], e);
      assert listing == [listing[0]] + listing[1..];
    }
  }

  /**
   In every interleaving a finished job has attached every file of its directory that has its suffix
   and is neither a symbol archive nor an arm64ec one; when no two published files share a name, with
   the content of that file.
   */
  lemma FinishedHasPublished(c: seq<Config>, r: Remote, schedule: seq<Event>, i: nat, e: Entry)
    requires |r.releases| <= 1 && i < |c|
    ensures var s := Run(c, Start(c, r), schedule);
            (s.jobs[i].stage.Finished? && e in c[i].listing && e.isFile && EndsWith(e.name, c[i].suffix)
             && !EndsWith(e.name, "-pdb.zip") && !EndsWith(e.name, "win-arm64ec.zip")) ==>
            e.name in s.remote.assets && (DistinctNames(c) ==> s.remote.assets[e.name] == e.content)
  {
    hide Run, Files, EndsWith, DistinctNames;
    var s := Run(c, Start(c, r), schedule);
    EveryRunIsSafe(c, r, schedule);
    SelectedFile(c[i], e);
    if s.jobs[i].stage.Finished? && e in Files(c[i]) {
      var k :| 0 <= k < |Files(c[i])| && Files(c[i])[k] == e;
      assert JobOk(c[i], i, s.jobs[i], s.remote);
      assert Files(c[i])[..|Files(c[i])|][k] == e;
      if DistinctNames(c) {
        RunExact(c, r, schedule);
        assert UploadedAs(c, s.jobs, i, k, e.name);
      }
    }
  }

  lemma SelectedFile(c: Config, e: Entry)
    ensures e in Files(c) <==>
            e in c.listing && e.isFile && EndsWith(e.name, c.suffix)
            && !EndsWith(e.name, "-pdb.zip") && !EndsWith(e.name, "win-arm64ec.zip")
  {
    Selected(c, c.listing, e);
  }

  ghost predicate Offered(c: seq<Config>, name: string) {
    exists i, e :: 0 <= i < |c| && e in Files(c[i]) && e.name == name
  }

  lemma {:induction false} AssetsOffered(c: seq<Config>, r: Remote, schedule: seq<Event>, name: string)
    ensures name in Run(c, Start(c, r), schedule).remote.assets ==> name in r.assets || Offered(c, name)
  {
    hide Files, NotesMatch;
    if schedule == [] {
    } else {
      var before, e := schedule[..|schedule| - 1], schedule[|schedule| - 1];
      AssetsOffered(c, r, before, name);
      var s := Run(c, Start(c, r), before);
      if e.job < |c| && s.jobs[e.job].stage.Upload? && s.jobs[e.job].stage.done < |Files(c[e.job])| {
        assert Files(c[e.job])[s.jobs[e.job].stage.done] in Files(c[e.job]);
      }
    }
  }

  /**
   At every point of every interleaving an asset that was not there before is a file of the directory
   of some job, with the suffix of that job, and neither a symbol archive nor an arm64ec one.
   */
  lemma OnlyReleaseFilesPublished(c: seq<Config>, r: Remote, schedule: seq<Event>, name: string)
    ensures name in Run(c, Start(c, r), schedule).remote.assets && name !in r.assets ==>
            && !EndsWith(name, "-pdb.zip") && !EndsWith(name, "win-arm64ec.zip")
            && exists i, e :: 0 <= i < |c| && e in c[i].listing && e.name == name && e.isFile && EndsWith(name, c[i].suffix)
  {
    hide Run, Files, EndsWith;
    AssetsOffered(c, r, schedule, name);
    if Offered(c, name) {
      var i, e :| 0 <= i < |c| && e in Files(c[i]) && e.name == name;
      SelectedFile(c[i], e);
    }
  }

  /** A job that has stopped failed for want of files exactly when its directory holds none to publish. */
  lemma NoFilesExactly(c: seq<Config>, r: Remote, schedule: seq<Event>, i: nat)
    requires |r.releases| <= 1 && i < |c|
    ensures var j := Run(c, Start(c, r), schedule).jobs[i];
            Stopped(j) ==>
            (j.stage == Failed(NoFiles) <==>
             forall e :: e in c[i].listing && e.isFile && EndsWith(e.name, c[i].suffix) ==>
                         EndsWith(e.name, "-pdb.zip") || EndsWith(e.name, "win-arm64ec.zip"))
  {
    hide Run, Files, EndsWith;
    EveryRunIsSafe(c, r, schedule);
    var s := Run(c, Start(c, r), schedule);
    assert JobOk(c[i], i, s.jobs[i], s.remote);
    forall e ensures e in Files(c[i]) <==> (e in c[i].listing && e.isFile && EndsWith(e.name, c[i].suffix)
                                             && !EndsWith(e.name, "-pdb.zip") && !EndsWith(e.name, "win-arm64ec.zip")) {
      SelectedFile(c[i], e);
    }
    if Files(c[i]) != [] { assert Files(c[i])[0] in Files(c[i]); }
  }

  // ---------------------------------------------------------------- the release notes

  ghost predicate NotesChecked(c: seq<Config>, r: Remote, s: System)
    requires |s.jobs| == |c|
  {
    && (forall i :: 0 <= i < |c| ==> if s.jobs[i].stage == Failed(NotesMismatch) then !NotesMatch(c[i])
                                     else s.jobs[i].stage.CreateRelease? ==> NotesMatch(c[i]))
    && (s.remote.releases != r.releases ==>
        r.releases == [] && exists i :: 0 <= i < |c| && s.remote.releases == [i] && NotesMatch(c[i]))
  }

  lemma {:induction false} NotesCheckedAlways(c: seq<Config>, r: Remote, schedule: seq<Event>)
    ensures NotesChecked(c, r, Run(c, Start(c, r), schedule))
  {
    if schedule == [] {
    } else {
      var before, e := schedule[..|schedule| - 1], schedule[|schedule| - 1];
      NotesCheckedAlways(c, r, before);
      NotesStep(c, r, Run(c, Start(c, r), before), e);
    }
  }

  lemma NotesStep(c: seq<Config>, r: Remote, s: System, e: Event)
    requires |s.jobs| == |c| && NotesChecked(c, r, s)
    ensures NotesChecked(c, r, Step(c, s, e))
  {
    hide Files;
    if e.job < |c| {
      var t := Step(c, s, e);
      assert forall i :: 0 <= i < |c| && i != e.job ==> t.jobs[i] == s.jobs[i];
      if s.jobs[e.job].stage.CreateRelease? && !e.fault && s.remote.releases == [] {
        assert t.remote.releases == [e.job];
      }
    }
  }

  /**
   In every interleaving a release that was not there before was created by a job whose notes name
   its version, and no job but one whose notes name other versions only fails for its notes.
   */
  lemma NewReleaseHasMatchingNotes(c: seq<Config>, r: Remote, schedule: seq<Event>)
    ensures var s := Run(c, Start(c, r), schedule);
            && (s.remote.releases != r.releases ==>
                r.releases == [] &&
                exists i :: 0 <= i < |c| && s.remote.releases == [i] && (c[i].title.None? || c[i].version in c[i].title.value))
            && (forall i :: 0 <= i < |c| && s.jobs[i].stage == Failed(NotesMismatch) ==>
                            c[i].title.Some? && c[i].version !in c[i].title.value)
  {
    hide Run;
    NotesCheckedAlways(c, r, schedule);
  }

  /** A job that meets no fault of its own does not even look at its notes when the release is there already. */
  lemma {:induction false} ExistingReleaseNeedsNoNotes(c: seq<Config>, r: Remote, schedule: seq<Event>, i: nat)
    requires |r.releases| == 1 && i < |c| && Files(c[i]) != [] && !OwnFault(schedule, i)
    ensures var j := Run(c, Start(c, r), schedule).jobs[i]; !Doomed(j) && !j.stage.Failed? && !j.stage.CheckNotes? && !j.stage.CreateRelease?
  {
    hide Files, NotesMatch;
    if schedule == [] {
    } else {
      var before, e := schedule[..|schedule| - 1], schedule[|schedule| - 1];
      assert schedule == before + [e];
      ExistingReleaseNeedsNoNotes(c, r, before, i);
      EveryRunIsSafe(c, r, before);
      GrowsBetween(c, r, before, 0, |before|);
      AfterAll(c, r, before);
      var s := Run(c, Start(c, r), before);
      assert JobOk(c[i], i, s.jobs[i], s.remote) && s.remote.releases != [];
      AdvanceDooms(c[i], i, s.jobs[i], s.remote, e.fault);
    }
  }

  lemma TaggedAdvances(c: Config, id: nat, j: Job, r: Remote, fault: bool)
    requires r.tag.Some? && !fault && !j.stage.MakeTag? && !j.stage.Push? && !j.stage.Fetch? && !j.stage.VerifyTag?
    requires !j.stage.Clone? ==> j.localTag == r.tag
    ensures var (j', r') := Advance(c, id, j, r, fault);
            && !j'.stage.MakeTag? && !j'.stage.Push? && !j'.stage.Fetch? && !j'.stage.VerifyTag?
            && !j'.stage.Clone? && j'.localTag == r.tag == r'.tag
  {
    hide Files, NotesMatch;
  }

  /** When the tag is on the remote already, a job that meets no fault of its own uses it and makes none. */
  lemma {:induction false} ExistingTagIsUsed(c: seq<Config>, r: Remote, schedule: seq<Event>, i: nat)
    requires |r.releases| <= 1 && r.tag.Some? && i < |c| && !OwnFault(schedule, i)
    ensures var j := Run(c, Start(c, r), schedule).jobs[i];
            && !j.stage.MakeTag? && !j.stage.Push? && !j.stage.Fetch? && !j.stage.VerifyTag?
            && (!j.stage.Clone? ==> j.localTag == r.tag)
  {
    hide Advance;
    if schedule == [] {
    } else {
      var before, e := schedule[..|schedule| - 1], schedule[|schedule| - 1];
      assert schedule == before + [e];
      ExistingTagIsUsed(c, r, before, i);
      GrowsBetween(c, r, before, 0, |before|);
      AfterAll(c, r, before);
      var s := Run(c, Start(c, r), before);
      if e.job == i { TaggedAdvances(c[i], i, s.jobs[i], s.remote, e.fault); }
    }
  }

  // ---------------------------------------------------------------- the zip and the tgz job

  lemma {:induction false} SelectedIsPublishable(c: Config, listing: seq<Entry>, k: nat)
    requires k < |Select(c, listing)|
    ensures Publishable(c, Select(c, listing)[k])
  {
    if !Publishable(c, listing[0]) {
      SelectedIsPublishable(c, listing[1..], k);
    } else if k > 0 {
      SelectedIsPublishable(c, listing[1..], k - 1);
    }
  }

  /** Files of the zip and of the tgz job never collide, whatever the directories hold. */
  lemma ZipAndTgzDisjoint(zip: Config, tgz: Config, k: nat, l: nat)
    requires zip.suffix == ".zip" && tgz.suffix == ".tgz" && k < |Files(zip)| && l < |Files(tgz)|
    ensures Files(zip)[k].name != Files(tgz)[l].name
  {
    SelectedIsPublishable(zip, zip.listing, k);
    SelectedIsPublishable(tgz, tgz.listing, l);
    var a, b := Files(zip)[k].name, Files(tgz)[l].name;
    assert a[|a| - 4..][1] == 'z' && b[|b| - 4..][1] == 't';
  }
}
