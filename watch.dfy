/** The hash state machine of the watched project file: what one tick of
    `watch` and one start-up `initWaitingSha` do to its record. */
module Watch {
  import opened Database

  /** No target is in flight and a waiting hash differs from the current
      one. */
  predicate Promotable(pf: ProjectFile)
  {
    pf.targetSha == "" && pf.waitingSha != "" && pf.currentSha != pf.waitingSha
  }

  /** The record after a tick whose save succeeds: the waiting hash becomes
      the target when the record is promotable. */
  function Promote(pf: ProjectFile): ProjectFile
  {
    if Promotable(pf) then pf.(targetSha := pf.waitingSha) else pf
  }

  /** A tick changes the record exactly when it is promotable, then only its
      target, from empty to the waiting hash. */
  lemma PromoteOnlyTarget(pf: ProjectFile)
    ensures Promote(pf).(targetSha := pf.targetSha) == pf
    ensures Promote(pf) != pf <==> Promotable(pf)
    ensures Promote(pf) != pf ==> pf.targetSha == "" && Promote(pf).targetSha == pf.waitingSha != ""
  {
  }

  /** A record with a target in flight is left as it is. */
  lemma PromoteInFlight(pf: ProjectFile)
    requires pf.targetSha != ""
    ensures Promote(pf) == pf
  {
  }

  /** A second tick right after a first changes nothing more. */
  lemma PromoteIdempotent(pf: ProjectFile)
    ensures Promote(Promote(pf)) == Promote(pf)
  {
  }

  /** What can happen to the record: a tick whose read and save either
      succeed or not, or a restart whose `initWaitingSha` records a freshly
      fetched hash. */
  datatype Event = Tick(saved: bool) | Restart(fetched: string)

  /** The record after one event. */
  function Step(pf: ProjectFile, e: Event): ProjectFile
  {
    match e
    case Tick(saved) => if saved then Promote(pf) else pf
    case Restart(sha) => pf.(waitingSha := sha)
  }

  /** The record after a sequence of events. */
  function Run(pf: ProjectFile, events: seq<Event>): ProjectFile
    decreases |events|
  {
    if |events| == 0 then pf else Run(Step(pf, events[0]), events[1..])
  }

  /** Nothing ever writes the current hash, and the record keeps its
      identity. */
  lemma {:induction false} RunKeepsCurrent(pf: ProjectFile, events: seq<Event>)
    ensures Run(pf, events).currentSha == pf.currentSha
    ensures Run(pf, events).id == pf.id
    ensures Run(pf, events).owner == pf.owner && Run(pf, events).repo == pf.repo
    ensures Run(pf, events).path == pf.path && Run(pf, events).ref == pf.ref
    decreases |events|
  {
    if |events| > 0 {
      RunKeepsCurrent(Step(pf, events[0]), events[1..]);
    }
  }

  /** Once a target is set it stays: no later event clears or replaces it. */
  lemma {:induction false} RunTargetSticky(pf: ProjectFile, events: seq<Event>)
    requires pf.targetSha != ""
    ensures Run(pf, events).targetSha == pf.targetSha
    decreases |events|
  {
    if |events| > 0 {
      RunTargetSticky(Step(pf, events[0]), events[1..]);
    }
  }

  /** A target, once there, is a hash that was waiting when it was promoted:
      the record either still has no target or has the target it started
      with or got one from a waiting hash that differed from the current
      one. */
  lemma {:induction false} RunTargetWasWaiting(pf: ProjectFile, events: seq<Event>)
    requires pf.targetSha == ""
    ensures var r := Run(pf, events);
      r.targetSha == "" || r.targetSha != pf.currentSha
    decreases |events|
  {
    if |events| > 0 {
      var next := Step(pf, events[0]);
      if next.targetSha == "" {
        RunTargetWasWaiting(next, events[1..]);
      } else {
        RunTargetSticky(next, events[1..]);
      }
    }
  }

  /** Single flight: from the current hash `h0` with `h1` waiting, the first
      successful tick promotes `h1`; a later hash `h2` recorded at a restart
      never replaces it, whatever follows. */
  lemma SingleFlight(pf: ProjectFile, h0: string, h1: string, h2: string, later: seq<Event>)
    requires pf.currentSha == h0 && pf.targetSha == "" && pf.waitingSha == h1
    requires h1 != "" && h1 != h0 && h2 != h1
    ensures Run(pf, [Tick(true), Restart(h2)]) == pf.(targetSha := h1, waitingSha := h2)
    ensures Run(pf, [Tick(true), Restart(h2)] + later).targetSha == h1
  {
    assert [Tick(true), Restart(h2)][1..] == [Restart(h2)] && [Restart(h2)][1..] == [];
    var promoted := Step(pf, Tick(true));
    assert promoted == pf.(targetSha := h1);
    var restarted := Step(promoted, Restart(h2));
    assert Run(pf, [Tick(true), Restart(h2)]) == Run(promoted, [Restart(h2)]);
    assert Run(promoted, [Restart(h2)]) == Run(restarted, []);
    assert ([Tick(true), Restart(h2)] + later)[1..] == [Restart(h2)] + later;
    assert ([Restart(h2)] + later)[1..] == later;
    RunTargetSticky(restarted, later);
  }
}
