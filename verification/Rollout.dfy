/** The rollout runner against a Deployment that its controller, and perhaps others, keep changing. */
module Rollout {
  import opened Common

  datatype Container = Container(name: string, image: string)

  datatype Condition = Condition(progressing: bool, reason: string, message: string)

  datatype Deployment = Deployment(containers: seq<Container>, replicas: Option<int>, generation: int, observed: int,
                                   updated: int, ready: int, available: int, conditions: seq<Condition>)

  datatype Snapshot = Snapshot(desired: int, updated: int, ready: int, available: int,
                               complete: bool, failed: bool, reason: string, message: string)

  const DEADLINE_EXCEEDED := "ProgressDeadlineExceeded"
  const ROLLOUT_TIMEOUT_MS := 180000

  function Desired(d: Deployment): int { if d.replicas.Some? then d.replicas.value else 1 }

  /** The controller has seen the current spec and every desired replica is updated, ready and available. */
  ghost predicate FullyRolledOut(d: Deployment) {
    d.observed >= d.generation && d.updated == d.ready == d.available == Desired(d)
  }

  /** Some Progressing condition reports that the progress deadline has passed. */
  ghost predicate DeadlineReported(d: Deployment) {
    exists i :: 0 <= i < |d.conditions| && d.conditions[i].progressing && d.conditions[i].reason == DEADLINE_EXCEEDED
  }

  /** Reason and message of the last Progressing condition. */
  function LastProgressing(conditions: seq<Condition>): (string, string) {
    if conditions == [] then ("", "")
    else
      var last := conditions[|conditions| - 1];
      if last.progressing then (last.reason, last.message) else LastProgressing(conditions[..|conditions| - 1])
  }

  /** The Progressing condition after which there is no other. */
  ghost predicate IsLastProgressing(conditions: seq<Condition>, i: nat) {
    i < |conditions| && conditions[i].progressing && forall j | i < j < |conditions| :: !conditions[j].progressing
  }

  lemma {:induction false} LastProgressingIsLast(conditions: seq<Condition>)
    ensures forall i: nat | IsLastProgressing(conditions, i) ::
              LastProgressing(conditions) == (conditions[i].reason, conditions[i].message)
    ensures (forall i | 0 <= i < |conditions| :: !conditions[i].progressing) ==> LastProgressing(conditions) == ("", "")
  {
    if conditions != [] {
      var init := conditions[..|conditions| - 1];
      LastProgressingIsLast(init);
      assert forall i: nat | IsLastProgressing(conditions, i) && i < |init| :: IsLastProgressing(init, i);
    }
  }

  // ---------- The cluster API ----------

  /** How a call to the API server goes: a failed patch may or may not have taken effect. */
  datatype Api = GetFails | PatchFails(applied: bool) | Works

  /** A changed spec is a new generation. */
  ghost function Patched(d: Deployment, image: string): Deployment
    requires d.containers != []
  {
    if d.containers[0].image == image then d
    else d.(containers := d.containers[0 := d.containers[0].(image := image)], generation := d.generation + 1)
  }

  /** The first container has the image and nothing else of the spec differs; it is a new generation if it was another
      image before. */
  ghost predicate OnlyImageSet(d: Deployment, e: Deployment, image: string) {
    && |d.containers| == |e.containers| > 0 && e.containers[1..] == d.containers[1..]
    && e.containers[0].image == image && e.containers[0].name == d.containers[0].name
    && (if d.containers[0].image == image then e.generation == d.generation else e.generation > d.generation)
    && e == d.(containers := e.containers, generation := e.generation)
  }

  lemma PatchSetsOnlyImage(d: Deployment, image: string)
    requires d.containers != []
    ensures OnlyImageSet(d, Patched(d, image), image)
  {
    assert d.containers[0 := d.containers[0].(image := image)][1..] == d.containers[1..];
  }

  ghost function AfterPatch(d: Deployment, image: string, api: Api): Deployment {
    if d.containers == [] || api.GetFails? || (api.PatchFails? && !api.applied) then d else Patched(d, image)
  }

  class Cluster {
    var dep: Deployment

    constructor (d: Deployment)
      ensures dep == d
    {
      dep := d;
    }

    /** The image before the patch, or None for an error. */
    method PatchDeploymentImage(image: string, api: Api) returns (prev: Option<string>)
      modifies this
      ensures dep == AfterPatch(old(dep), image, api)
      ensures prev == if api.Works? && old(dep).containers != [] then Some(old(dep).containers[0].image) else None
    {
      if api.GetFails? {
        return None;
      }
      var containers := dep.containers;
      if |containers| == 0 {
        return None;
      }
      var was := containers[0].image;
      if (api.Works? || api.applied) && was != image {
        dep := dep.(containers := containers[0 := containers[0].(image := image)], generation := dep.generation + 1);
      }
      if api.PatchFails? {
        return None;
      }
      prev := Some(was);
    }

    method RolloutStatus() returns (s: Snapshot)
      ensures s.desired == Desired(dep) && s.updated == dep.updated
      ensures s.ready == dep.ready && s.available == dep.available
      ensures (s.reason, s.message) == LastProgressing(dep.conditions)
      ensures s.complete <==> FullyRolledOut(dep)
      ensures s.failed <==> DeadlineReported(dep)
    {
      var desired := 1;
      if dep.replicas.Some? {
        desired := dep.replicas.value;
      }
      s := Snapshot(desired, dep.updated, dep.ready, dep.available, false, false, "", "");
      var i := 0;
      while i < |dep.conditions|
        invariant 0 <= i <= |dep.conditions|
        invariant s.desired == desired && s.updated == dep.updated
        invariant s.ready == dep.ready && s.available == dep.available && !s.complete
        invariant (s.reason, s.message) == LastProgressing(dep.conditions[..i])
        invariant s.failed <==> exists j :: 0 <= j < i &&
                                  dep.conditions[j].progressing && dep.conditions[j].reason == DEADLINE_EXCEEDED
      {
        var cond := dep.conditions[i];
        assert dep.conditions[..i + 1][..i] == dep.conditions[..i];
        if cond.progressing {
          s := s.(reason := cond.reason, message := cond.message);
          if cond.reason == DEADLINE_EXCEEDED {
            s := s.(failed := true);
          }
        }
        i := i + 1;
      }
      assert dep.conditions[..i] == dep.conditions;
      if dep.observed >= dep.generation && s.updated == desired && s.ready == desired && s.available == desired {
        s := s.(complete := true);
      }
    }
  }

  // ---------- The runner ----------

  datatype Phase = Patching | Progressing | Succeeded | Failed | RollingBack | RolledBack

  datatype Finish = Success | Failure

  /** One tick: the clock, whether the read works, the Deployment as the read finds it, and, should this
      tick end in a rollback, the Deployment as the rollback finds it and how that patch goes. */
  datatype Poll = Poll(now: int, readOk: bool, world: Deployment, later: Deployment, rollback: Api)

  datatype Verdict = KeepPolling | Complete | GaveUp | TimedOut

  ghost function Judge(p: Poll, deadline: int): Verdict {
    if p.readOk && FullyRolledOut(p.world) then Complete
    else if p.readOk && DeadlineReported(p.world) then GaveUp
    else if p.now > deadline then TimedOut
    else KeepPolling
  }

  /** The first poll that decides, or their number if none does. */
  ghost function EndsAt(polls: seq<Poll>, deadline: int): nat {
    if polls == [] || Judge(polls[0], deadline) != KeepPolling then 0 else 1 + EndsAt(polls[1..], deadline)
  }

  ghost function AfterRollback(d: Deployment, prev: string, api: Api): Deployment {
    if prev == "" then d else AfterPatch(d, prev, api)
  }

  /** The Deployment as the runner leaves it. */
  ghost function Final(prev: string, polls: seq<Poll>, deadline: int, patched: Deployment): Deployment {
    var k := EndsAt(polls, deadline);
    if k >= |polls| then (if polls == [] then patched else polls[|polls| - 1].world)
    else if Judge(polls[k], deadline) == Complete then polls[k].world
    else AfterRollback(polls[k].later, prev, polls[k].rollback)
  }

  /** What a run leaves behind: the Deployment, what it has recorded as finished, its last phase. */
  datatype Outcome = Outcome(dep: Deployment, finishes: seq<Finish>, phase: Phase)

  /** The polling loop, tick by tick. */
  ghost function Watched(prev: string, dep: Deployment, polls: seq<Poll>, deadline: int): Outcome
    decreases |polls|
  {
    if polls == [] then Outcome(dep, [], Progressing)
    else
      match Judge(polls[0], deadline)
      case KeepPolling => Watched(prev, polls[0].world, polls[1..], deadline)
      case Complete => Outcome(polls[0].world, [Success], Succeeded)
      case _ => Outcome(AfterRollback(polls[0].later, prev, polls[0].rollback), [Failure], RolledBack)
  }

  /** The same by the poll that decides. */
  ghost function Decided(prev: string, patched: Deployment, polls: seq<Poll>, deadline: int): Outcome {
    var k, dep := EndsAt(polls, deadline), Final(prev, polls, deadline, patched);
    if k >= |polls| then Outcome(dep, [], Progressing)
    else if Judge(polls[k], deadline) == Complete then Outcome(dep, [Success], Succeeded)
    else Outcome(dep, [Failure], RolledBack)
  }

  lemma {:induction false} WatchedIsDecided(prev: string, dep: Deployment, polls: seq<Poll>, deadline: int)
    ensures Watched(prev, dep, polls, deadline) == Decided(prev, dep, polls, deadline)
    decreases |polls|
  {
    if polls != [] && Judge(polls[0], deadline) == KeepPolling {
      WatchedIsDecided(prev, polls[0].world, polls[1..], deadline);
    }
  }

  lemma WatchedStep(prev: string, dep: Deployment, polls: seq<Poll>, i: nat, deadline: int)
    requires i < |polls|
    ensures Watched(prev, dep, polls[i..], deadline) ==
            match Judge(polls[i], deadline)
            case KeepPolling => Watched(prev, polls[i].world, polls[i + 1..], deadline)
            case Complete => Outcome(polls[i].world, [Success], Succeeded)
            case _ => Outcome(AfterRollback(polls[i].later, prev, polls[i].rollback), [Failure], RolledBack)
  {
    assert polls[i..][0] == polls[i] && polls[i..][1..] == polls[i + 1..];
  }

  ghost function OutcomeOf(d0: Deployment, image: string, patch: Api, polls: seq<Poll>, deadline: int): Outcome {
    if !patch.Works? || d0.containers == [] then Outcome(AfterPatch(d0, image, patch), [Failure], Failed)
    else Decided(d0.containers[0].image, Patched(d0, image), polls, deadline)
  }

  class Runner {
    const cluster: Cluster
    var events: seq<Phase>
    var finishes: seq<Finish>

    constructor (c: Cluster)
      ensures cluster == c && events == [] && finishes == []
    {
      cluster := c;
      events, finishes := [], [];
    }

    method RollbackRollout(prev: string, later: Deployment, api: Api)
      modifies this, cluster
      ensures cluster.dep == AfterRollback(later, prev, api)
      ensures finishes == old(finishes) + [Failure]
      ensures events == old(events) + [RollingBack]
                      + (if prev != "" && (!api.Works? || later.containers == []) then [RollingBack] else [])
                      + [RolledBack]
      ensures old(events) < events && events[|events| - 1] == RolledBack
    {
      cluster.dep := later;
      events := events + [RollingBack];
      if prev != "" {
        var r := cluster.PatchDeploymentImage(prev, api);
        if r.None? {
          events := events + [RollingBack];
        }
      }
      events := events + [RolledBack];
      finishes := finishes + [Failure];
    }

    /** The whole run over the ticks that happen; `started` is the clock right after the patch. */
    method RunDeploymentRollout(image: string, patch: Api, started: int, polls: seq<Poll>)
      modifies this, cluster
      ensures var d0 := old(cluster.dep);
              var out := OutcomeOf(d0, image, patch, polls, started + ROLLOUT_TIMEOUT_MS);
              && cluster.dep == out.dep
              && finishes == old(finishes) + out.finishes
              && old(events) < events && events[|events| - 1] == out.phase
    {
      events := events + [Patching];
      var patched := cluster.PatchDeploymentImage(image, patch);
      if patched.None? {
        events := events + [Failed];
        finishes := finishes + [Failure];
        return;
      }
      var prev := patched.value;
      events := events + [Progressing];
      var deadline := started + ROLLOUT_TIMEOUT_MS;
      var i := 0;
      assert polls[0..] == polls;
      ghost var outcome := Watched(prev, cluster.dep, polls, deadline);
      WatchedIsDecided(prev, cluster.dep, polls, deadline);
      while i < |polls|
        invariant 0 <= i <= |polls|
        invariant Watched(prev, cluster.dep, polls[i..], deadline) == outcome
        invariant finishes == old(finishes) && old(events) < events && events[|events| - 1] == Progressing
      {
        var p := polls[i];
        WatchedStep(prev, cluster.dep, polls, i, deadline);
        cluster.dep := p.world;
        if !p.readOk {
          if p.now > deadline {
            RollbackRollout(prev, p.later, p.rollback);
            return;
          }
          i := i + 1;
          continue;
        }
        var st := cluster.RolloutStatus();
        if st.complete {
          events := events + [Succeeded];
          finishes := finishes + [Success];
          return;
        }
        if st.failed {
          RollbackRollout(prev, p.later, p.rollback);
          return;
        }
        if p.now > deadline {
          RollbackRollout(prev, p.later, p.rollback);
          return;
        }
        i := i + 1;
      }
    }
  }

  // ---------- What a run means ----------

  lemma {:induction false} EndsAtFirst(polls: seq<Poll>, deadline: int)
    ensures EndsAt(polls, deadline) <= |polls|
    ensures forall j | 0 <= j < EndsAt(polls, deadline) :: Judge(polls[j], deadline) == KeepPolling
    ensures EndsAt(polls, deadline) < |polls| ==> Judge(polls[EndsAt(polls, deadline)], deadline) != KeepPolling
  {
    if polls != [] && Judge(polls[0], deadline) == KeepPolling {
      EndsAtFirst(polls[1..], deadline);
      forall j | 0 <= j < EndsAt(polls, deadline) ensures Judge(polls[j], deadline) == KeepPolling {
        assert j > 0 ==> polls[1..][j - 1] == polls[j];
      }
    }
  }

  /** The first poll past the deadline ends the run, if nothing ended it before. */
  lemma EndsByFirstPollPastDeadline(polls: seq<Poll>, deadline: int, j: nat)
    requires j < |polls| && polls[j].now > deadline
    ensures EndsAt(polls, deadline) <= j
  {
    EndsAtFirst(polls, deadline);
    assert Judge(polls[j], deadline) != KeepPolling;
  }

  /** The status was read, and the patched or a later spec is observed and fully in place. */
  ghost predicate ShowsComplete(p: Poll) {
    && p.readOk && p.world.observed >= p.world.generation
    && p.world.updated == p.world.ready == p.world.available
       == (if p.world.replicas == None then 1 else p.world.replicas.value)
  }

  ghost predicate ShowsDeadline(p: Poll) {
    p.readOk && exists c :: c in p.world.conditions && c.progressing && c.reason == "ProgressDeadlineExceeded"
  }

  /** The deadline has passed, or the status was read and shows the rollout complete or given up. */
  ghost predicate Settles(p: Poll, deadline: int) { p.now > deadline || ShowsComplete(p) || ShowsDeadline(p) }

  lemma SettlesIffJudged(p: Poll, deadline: int)
    ensures Settles(p, deadline) <==> Judge(p, deadline) != KeepPolling
    ensures ShowsComplete(p) <==> Judge(p, deadline) == Complete
  {
    if p.readOk && DeadlineReported(p.world) {
      var i :| 0 <= i < |p.world.conditions| && p.world.conditions[i].progressing
               && p.world.conditions[i].reason == DEADLINE_EXCEEDED;
      assert p.world.conditions[i] in p.world.conditions;
    }
  }

  ghost predicate FirstToSettle(polls: seq<Poll>, deadline: int, j: nat) {
    j < |polls| && Settles(polls[j], deadline) && forall i | 0 <= i < j :: !Settles(polls[i], deadline)
  }

  lemma EndsAtFirstToSettle(polls: seq<Poll>, deadline: int, j: nat)
    ensures FirstToSettle(polls, deadline, j) <==> j == EndsAt(polls, deadline) && j < |polls|
  {
    EndsAtFirst(polls, deadline);
    forall i | 0 <= i < |polls| ensures Settles(polls[i], deadline) <==> Judge(polls[i], deadline) != KeepPolling {
      SettlesIffJudged(polls[i], deadline);
    }
  }

  /** After a successful patch the run goes on until a poll settles it, and ends with the first that does: in success
      if its status was read and the rollout was complete, and otherwise in a failure rolled back. */
  lemma FirstSettlingPollDecides(d0: Deployment, image: string, polls: seq<Poll>, deadline: int)
    requires d0.containers != []
    ensures var out := OutcomeOf(d0, image, Works, polls, deadline);
            && (out.finishes == [] <==> forall j | 0 <= j < |polls| :: !Settles(polls[j], deadline))
            && (out.finishes == [] <==> out.phase == Progressing)
            && forall j: nat | FirstToSettle(polls, deadline, j) ::
                 if ShowsComplete(polls[j])
                 then out == Outcome(polls[j].world, [Success], Succeeded)
                 else out.finishes == [Failure] && out.phase == RolledBack
  {
    EndsAtFirst(polls, deadline);
    forall i | 0 <= i < |polls|
      ensures Settles(polls[i], deadline) <==> Judge(polls[i], deadline) != KeepPolling
      ensures ShowsComplete(polls[i]) <==> Judge(polls[i], deadline) == Complete
    {
      SettlesIffJudged(polls[i], deadline);
    }
    forall j: nat ensures FirstToSettle(polls, deadline, j) <==> j == EndsAt(polls, deadline) && j < |polls| {
      EndsAtFirstToSettle(polls, deadline, j);
    }
  }

  /** The polls without those that could not be read while there was still time. */
  ghost function Heard(polls: seq<Poll>, deadline: int): seq<Poll> {
    if polls == [] then []
    else (if polls[0].readOk || polls[0].now > deadline then [polls[0]] else []) + Heard(polls[1..], deadline)
  }

  lemma {:induction false} UnreadPollsChangeNothing(prev: string, dep: Deployment, heard: Deployment, polls: seq<Poll>,
                                                    deadline: int)
    ensures var a := Watched(prev, dep, polls, deadline);
            var b := Watched(prev, heard, Heard(polls, deadline), deadline);
            a.finishes == b.finishes && a.phase == b.phase && (a.finishes != [] ==> a.dep == b.dep)
    decreases |polls|
  {
    if polls != [] {
      var p, rest := polls[0], Heard(polls[1..], deadline);
      if p.readOk || p.now > deadline {
        assert Heard(polls, deadline)[0] == p && Heard(polls, deadline)[1..] == rest;
        UnreadPollsChangeNothing(prev, p.world, p.world, polls[1..], deadline);
      } else {
        assert Heard(polls, deadline) == rest;
        UnreadPollsChangeNothing(prev, p.world, heard, polls[1..], deadline);
      }
    }
  }

  /** A poll that cannot be read before the deadline leaves the outcome as if it had not happened. */
  lemma UnreadPollsDoNotMatter(d0: Deployment, image: string, patch: Api, polls: seq<Poll>, deadline: int)
    ensures var a := OutcomeOf(d0, image, patch, polls, deadline);
            var b := OutcomeOf(d0, image, patch, Heard(polls, deadline), deadline);
            a.finishes == b.finishes && a.phase == b.phase && (a.finishes != [] ==> a.dep == b.dep)
  {
    if patch.Works? && d0.containers != [] {
      var prev, dep := d0.containers[0].image, Patched(d0, image);
      WatchedIsDecided(prev, dep, polls, deadline);
      WatchedIsDecided(prev, dep, Heard(polls, deadline), deadline);
      UnreadPollsChangeNothing(prev, dep, dep, polls, deadline);
    }
  }

  /** Generations only grow, starting from the patched one. */
  ghost predicate GenerationsGrow(from: int, polls: seq<Poll>)
    decreases |polls|
  {
    polls != [] ==> from <= polls[0].world.generation && GenerationsGrow(polls[0].world.generation, polls[1..])
  }

  lemma {:induction false} GenerationAtLeast(from: int, polls: seq<Poll>, k: nat)
    requires GenerationsGrow(from, polls) && k < |polls|
    ensures polls[k].world.generation >= from
    decreases k
  {
    if k > 0 {
      GenerationAtLeast(polls[0].world.generation, polls[1..], k - 1);
    }
  }

  /** Success is recorded only off a status in which the controller has observed the patched generation or a
      later one and every desired replica is updated, ready and available. */
  lemma SuccessIsSound(d0: Deployment, image: string, patch: Api, polls: seq<Poll>, deadline: int)
    requires d0.containers != [] && GenerationsGrow(Patched(d0, image).generation, polls)
    requires Success in OutcomeOf(d0, image, patch, polls, deadline).finishes
    ensures patch.Works? && EndsAt(polls, deadline) < |polls|
    ensures var w := polls[EndsAt(polls, deadline)].world;
            && w.observed >= w.generation >= Patched(d0, image).generation
            && w.updated == w.ready == w.available == Desired(w)
            && OutcomeOf(d0, image, patch, polls, deadline).dep == w
  {
    GenerationAtLeast(Patched(d0, image).generation, polls, EndsAt(polls, deadline));
  }

  /** A run records at most one finish, and has recorded it if and only if the patch was not made or some poll
      decides. */
  lemma FinishesOnceIff(d0: Deployment, image: string, patch: Api, polls: seq<Poll>, deadline: int)
    ensures var out := OutcomeOf(d0, image, patch, polls, deadline);
            && |out.finishes| <= 1
            && (|out.finishes| == 1 <==>
                !patch.Works? || d0.containers == [] ||
                exists j :: 0 <= j < |polls| && Judge(polls[j], deadline) != KeepPolling)
  {
    EndsAtFirst(polls, deadline);
  }

  /** Nobody else writes the spec: at every tick the containers are as the patch left them. */
  ghost predicate OnlyWriter(patched: Deployment, polls: seq<Poll>) {
    forall i | 0 <= i < |polls| ::
      polls[i].world.containers == patched.containers && polls[i].later.containers == patched.containers
  }

  ghost predicate TookEffect(api: Api) { api.Works? || (api.PatchFails? && api.applied) }

  /** With no other writer, a failure after a successful patch restores the containers exactly when there is an
      earlier image to go back to and the rollback patch takes effect (or there was nothing to restore). */
  lemma FailureRestoresIff(d0: Deployment, image: string, polls: seq<Poll>, deadline: int)
    requires d0.containers != [] && OnlyWriter(Patched(d0, image), polls)
    requires OutcomeOf(d0, image, Works, polls, deadline).finishes == [Failure]
    ensures var prev := d0.containers[0].image;
            OutcomeOf(d0, image, Works, polls, deadline).dep.containers == d0.containers <==>
            image == prev || (prev != "" && TookEffect(polls[EndsAt(polls, deadline)].rollback))
  {
    var k, prev := EndsAt(polls, deadline), d0.containers[0].image;
    var later := polls[k].later;
    assert later.containers == Patched(d0, image).containers;
    if image != prev {
      assert later.containers[0].image == image;
      assert later.containers[0 := later.containers[0].(image := prev)] == d0.containers;
    }
  }

  /** While the controller has not observed the patch it reports no exceeded deadline that was not reported before,
      and what it has observed it does not forget. */
  ghost predicate StatusFollowsController(d0: Deployment, image: string, polls: seq<Poll>)
    requires d0.containers != []
  {
    forall i | 0 <= i < |polls| ::
      && d0.observed <= polls[i].world.observed
      && (polls[i].world.observed < Patched(d0, image).generation && DeadlineReported(polls[i].world)
          ==> DeadlineReported(d0))
  }

  /** The run is given up on a condition although the controller has not even seen the patch. */
  ghost predicate StaleFailure(d0: Deployment, image: string, polls: seq<Poll>, deadline: int)
    requires d0.containers != []
  {
    var k := EndsAt(polls, deadline);
    && k < |polls| && Judge(polls[k], deadline) == GaveUp
    && polls[k].world.observed < Patched(d0, image).generation
  }

  /** Unlike the completion test, the failure test does not look at the observed generation. No run is rolled back
      on a stale condition if and only if the Deployment reported no exceeded deadline when it was patched, or the
      patch changed nothing and was observed already. */
  lemma FailureIsNeverStaleIff(d0: Deployment, image: string, deadline: int)
    requires d0.containers != []
    ensures (forall polls: seq<Poll> | StatusFollowsController(d0, image, polls) ::
               !StaleFailure(d0, image, polls, deadline))
       <==> !DeadlineReported(d0) || d0.observed >= Patched(d0, image).generation
  {
    if DeadlineReported(d0) && d0.observed < Patched(d0, image).generation {
      var w := Patched(d0, image);
      var polls := [Poll(0, true, w, w, Works)];
      assert w.conditions == d0.conditions && w.observed == d0.observed;
      assert StatusFollowsController(d0, image, polls) && StaleFailure(d0, image, polls, deadline);
    } else {
      forall polls: seq<Poll> | StatusFollowsController(d0, image, polls)
        ensures !StaleFailure(d0, image, polls, deadline)
      {
        var k := EndsAt(polls, deadline);
        assert k < |polls| ==> d0.observed <= polls[k].world.observed;
      }
    }
  }

  /** A patch that reports an error ends the run without a rollback, whatever it did to the cluster. However it
      fails, the run leaves the containers as they were, if and only if there was nothing for it to change. */
  lemma FailedPatchIsHarmlessIff(d0: Deployment, image: string, polls: seq<Poll>, deadline: int)
    ensures (forall patch: Api | !patch.Works? ::
               OutcomeOf(d0, image, patch, polls, deadline).dep.containers == d0.containers)
       <==> d0.containers == [] || d0.containers[0].image == image
  {
    if d0.containers != [] && d0.containers[0].image != image {
      var stuck := OutcomeOf(d0, image, PatchFails(true), polls, deadline);
      assert stuck.dep.containers[0].image == image;
    }
  }
}
