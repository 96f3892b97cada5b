/** Readers, writers and switches on the snapshot, interleaved.

    Every step is one atomic access: to the write count, to the document, or to
    the snapshot under its lock. A writer holds the store's lock from replacing the
    document to counting the write. */
module SnapshotRuns {
  import opened Wrappers
  import opened NetworkSpace
  import opened Snapshot

  type Thread = nat

  /** Where a value in an answer comes from: a version of the document, a switch
      the store refused, or a read that failed. */
  datatype Source = Version(v: nat) | Refused(i: nat) | Unread

  datatype Phase =
    | Idle
    | Entered(generation: nat)                                       // the count is read, the lock not taken
    | Reading(generation: nat)                                       // the lock is held
    | HasSpace(generation: nat, space: Space, from: Source)
    | Counting                                                       // a write tried, not yet counted
    | SwitchCounting(space: Space, landed: bool)
    | Patching(space: Space, landed: bool)                           // the snapshot is still to be changed

  datatype Answer = Answer(generation: nat, document: Document, spaceFrom: Source, customFrom: Source, refusals: nat)

  /** `docs` are all versions of the document, `stamps[g]` the newest one when the count became `g`. */
  datatype System = System(
    docs: seq<Document>, stamps: seq<nat>, writing: bool,
    kept: Option<Filed>, spaceFrom: Source, customFrom: Source, locked: bool,
    phases: map<Thread, Phase>, refusals: seq<Space>, answers: seq<Answer>)
  {
    function At(t: Thread): Phase {
      if t in phases then phases[t] else Idle
    }

    function Put(t: Thread, p: Phase): System {
      this.(phases := phases[t := p])
    }

    function Newest(): nat
      requires docs != []
    {
      |docs| - 1
    }
  }

  datatype Action =
    | Enter(t: Thread)
    | Look(t: Thread)
    | ReadSpace(t: Thread, ok: bool)
    | ReadCustom(t: Thread, ok: bool)
    | Write(t: Thread, document: Document, landed: bool)             // any write but a switch; it may replace the space
    | Switch(t: Thread, space: Space, landed: bool, counted: bool)
    | Count(t: Thread)
    | Patch(t: Thread)

  function Start(first: Document): System {
    System([first], [0], false, None, Unread, Unread, false, map[], [], [])
  }

  /** The document an action puts into the store. */
  function Replacement(s: System, a: Action): Option<Document>
    requires s.docs != []
  {
    match a
    case Write(t, document, landed) => if s.At(t).Idle? && !s.writing && landed then Some(document) else None
    case Switch(t, space, landed, _) =>
      if s.At(t).Idle? && !s.writing && landed then Some(s.docs[s.Newest()].(space := space)) else None
    case _ => None
  }

  function Next(s: System, a: Action): System
    requires s.docs != [] && s.stamps != []
    ensures Next(s, a).docs != [] && Next(s, a).stamps != []
  {
    match a
    case Enter(t) => if s.At(t).Idle? then s.Put(t, Entered(|s.stamps| - 1)) else s
    case Look(t) => if s.At(t).Entered? && !s.locked then AfterLook(s, t, s.At(t).generation) else s
    case ReadSpace(t, ok) =>
      if !s.At(t).Reading? then s
      else if ok then s.Put(t, HasSpace(s.At(t).generation, s.docs[s.Newest()].space, Version(s.Newest())))
      else s.Put(t, HasSpace(s.At(t).generation, Mainnet, Unread))
    case ReadCustom(t, ok) =>
      if !s.At(t).HasSpace? then s
      else
        var from := if ok then Version(s.Newest()) else Unread;
        var custom := if ok then s.docs[s.Newest()].custom else [];
        AfterFile(s, t, Filed(s.At(t).generation, Document(s.At(t).space, custom)), s.At(t).from, from)
    case Write(t, _, _) => if s.At(t).Idle? && !s.writing then AfterWrite(s, t, Replacement(s, a), Counting) else s
    case Switch(t, space, landed, counted) =>
      if !s.At(t).Idle? || s.writing then s
      else if landed || counted then AfterWrite(s, t, Replacement(s, a), SwitchCounting(space, landed))
      else s.Put(t, Patching(space, false))
    case Count(t) =>
      if s.At(t).Counting? then s.(writing := false, stamps := s.stamps + [s.Newest()]).Put(t, Idle)
      else if s.At(t).SwitchCounting? then
        s.(writing := false, stamps := s.stamps + [s.Newest()]).Put(t, Patching(s.At(t).space, s.At(t).landed))
      else s
    case Patch(t) => if s.At(t).Patching? && !s.locked then AfterPatch(s, t, s.At(t).space, s.At(t).landed) else s
  }

  function AfterLook(s: System, t: Thread, generation: nat): System {
    if IsFresh(s.kept, generation) then
      s.(answers := s.answers
                    + [Answer(generation, s.kept.value.document, s.spaceFrom, s.customFrom, |s.refusals|)]).Put(t, Idle)
    else s.(locked := true).Put(t, Reading(generation))
  }

  function AfterFile(s: System, t: Thread, filed: Filed, spaceFrom: Source, customFrom: Source): System {
    s.(kept := Some(filed), spaceFrom := spaceFrom, customFrom := customFrom, locked := false,
       answers := s.answers + [Answer(filed.generation, filed.document, spaceFrom, customFrom, |s.refusals|)])
    .Put(t, Idle)
  }

  function AfterWrite(s: System, t: Thread, document: Option<Document>, p: Phase): System {
    s.(writing := true, docs := if document.Some? then s.docs + [document.value] else s.docs).Put(t, p)
  }

  function AfterPatch(s: System, t: Thread, space: Space, landed: bool): System
    requires s.docs != []
  {
    s.(kept := Patched(s.kept, space),
       spaceFrom := if landed then Version(s.Newest()) else Refused(|s.refusals|),
       refusals := if landed then s.refusals else s.refusals + [space])
    .Put(t, Idle)
  }

  function RunFrom(s: System, actions: seq<Action>): (n: System)
    requires s.docs != [] && s.stamps != []
    ensures n.docs != [] && n.stamps != []
  {
    if actions == [] then s else Next(RunFrom(s, actions[..|actions| - 1]), actions[|actions| - 1])
  }

  function Run(first: Document, actions: seq<Action>): (s: System)
    ensures s.docs != [] && s.stamps != []
  {
    RunFrom(Start(first), actions)
  }

  lemma RunNothing(s: System)
    requires s.docs != [] && s.stamps != []
    ensures RunFrom(s, []) == s
  {
  }

  lemma RunLast(s: System, actions: seq<Action>)
    requires s.docs != [] && s.stamps != [] && actions != []
    ensures RunFrom(s, actions) == Next(RunFrom(s, actions[..|actions| - 1]), actions[|actions| - 1])
  {
    hide Next;
  }

  lemma OneMore(s: System, actions: seq<Action>, a: Action)
    requires s.docs != [] && s.stamps != []
    ensures RunFrom(s, actions + [a]) == Next(RunFrom(s, actions), a)
  {
    hide Next;
    assert (actions + [a])[..|actions + [a]| - 1] == actions;
  }

  lemma {:induction false} Continued(s: System, before: seq<Action>, after: seq<Action>)
    requires s.docs != [] && s.stamps != []
    ensures RunFrom(s, before + after) == RunFrom(RunFrom(s, before), after)
  {
    hide Next;
    if after == [] {
      assert before + after == before;
    } else {
      var n := |after| - 1;
      Continued(s, before, after[..n]);
      assert before + after == (before + after[..n]) + [after[n]];
      OneMore(s, before + after[..n], after[n]);
    }
  }

  // ----- What holds in every run -----

  predicate Reads(s: System, t: Thread) {
    s.At(t).Reading? || s.At(t).HasSpace?
  }

  predicate Counts(s: System, t: Thread) {
    s.At(t).Counting? || s.At(t).SwitchCounting?
  }

  function GenerationOf(p: Phase): nat {
    match p
    case Entered(g) => g
    case Reading(g) => g
    case HasSpace(g, _, _) => g
    case _ => 0
  }

  ghost predicate StampsAreRight(s: System) {
    s.docs != [] && s.stamps != [] && forall g | 0 <= g < |s.stamps| :: s.stamps[g] < |s.docs|
  }

  ghost predicate GenerationsAreRight(s: System) {
    (s.kept.Some? ==> s.kept.value.generation < |s.stamps|) && forall t :: GenerationOf(s.At(t)) < |s.stamps|
  }

  /** The snapshot is locked while, and only while, one thread is rereading the store. */
  ghost predicate LockIsRight(s: System) {
    (forall t | Reads(s, t) :: s.locked) && (forall t, u | Reads(s, t) && Reads(s, u) :: t == u) &&
    (s.locked ==> exists t :: Reads(s, t))
  }

  /** What was recorded stays. */
  ghost predicate Grown(s: System, n: System) {
    s.docs <= n.docs && s.stamps <= n.stamps && s.refusals <= n.refusals
  }

  ghost predicate WriterIsRight(s: System) {
    (forall t | Counts(s, t) :: s.writing) && forall t, u | Counts(s, t) && Counts(s, u) :: t == u
  }

  ghost predicate Sound(s: System) {
    StampsAreRight(s) && GenerationsAreRight(s) && LockIsRight(s) && WriterIsRight(s)
  }

  lemma OthersPhases(s: System, a: Action, t: Thread)
    requires s.docs != [] && s.stamps != [] && t != a.t
    ensures Next(s, a).At(t) == s.At(t)
  {
  }

  /** Only the reader at work gives the lock back, and only a reader that finds it free takes it. */
  lemma WhoLocks(s: System, a: Action)
    requires s.docs != [] && s.stamps != []
    ensures var n := Next(s, a);
            (Reads(n, a.t) ==> Reads(s, a.t) || !s.locked) && (Reads(n, a.t) && !s.locked ==> n.locked || Reads(s, a.t))
            && (s.locked && !n.locked ==> Reads(s, a.t) && !Reads(n, a.t))
            && (s.locked && n.locked && Reads(s, a.t) ==> Reads(n, a.t)) && (!s.locked && n.locked ==> Reads(n, a.t))
  {
  }

  lemma LockStaysRight(s: System, a: Action)
    requires Sound(s)
    ensures LockIsRight(Next(s, a))
  {
    hide Next;
    var n := Next(s, a);
    WhoLocks(s, a);
    forall t | t != a.t
      ensures Reads(n, t) == Reads(s, t)
    {
      OthersPhases(s, a, t);
    }
  }

  lemma WriterStaysRight(s: System, a: Action)
    requires Sound(s)
    ensures WriterIsRight(Next(s, a))
  {
    var n := Next(s, a);
    forall t | Counts(n, t)
      ensures n.writing && (Counts(s, t) || (t == a.t && !s.writing))
    {
      if t != a.t {
        OthersPhases(s, a, t);
        assert Counts(s, t) && (Counts(s, a.t) ==> t == a.t);
      }
    }
  }

  lemma GenerationsStayRight(s: System, a: Action)
    requires Sound(s)
    ensures StampsAreRight(Next(s, a)) && GenerationsAreRight(Next(s, a)) && Grown(s, Next(s, a))
  {
    hide Next, GenerationOf;
    OwnGeneration(s, a);
    forall t
      ensures GenerationOf(Next(s, a).At(t)) < |Next(s, a).stamps|
    {
      if t != a.t { OthersPhases(s, a, t); }
    }
  }

  lemma OwnGeneration(s: System, a: Action)
    requires StampsAreRight(s) && GenerationsAreRight(s)
    ensures var n := Next(s, a);
            StampsAreRight(n) && Grown(s, n) && GenerationOf(n.At(a.t)) < |n.stamps|
            && (n.kept.Some? ==> n.kept.value.generation < |n.stamps|)
  {
    assert GenerationOf(s.At(a.t)) < |s.stamps|;
  }

  lemma SoundStays(s: System, a: Action)
    requires Sound(s)
    ensures Sound(Next(s, a))
  {
    hide Next;
    LockStaysRight(s, a);
    WriterStaysRight(s, a);
    GenerationsStayRight(s, a);
  }

  lemma {:induction false} AlwaysSound(s: System, actions: seq<Action>)
    requires Sound(s)
    ensures Sound(RunFrom(s, actions))
  {
    hide Next;
    if actions != [] {
      AlwaysSound(s, actions[..|actions| - 1]);
      SoundStays(RunFrom(s, actions[..|actions| - 1]), actions[|actions| - 1]);
    }
  }

  lemma RunIsSound(first: Document, actions: seq<Action>)
    ensures Sound(Run(first, actions))
  {
    AlwaysSound(Start(first), actions);
  }

  // ----- What an answer is worth -----

  /** `space` holds every write counted by `generation`, or is the last switch refused, or a read failed. */
  ghost predicate SpaceIsRight(s: System, generation: nat, space: Space, from: Source, refusals: nat) {
    match from
    case Version(v) => generation < |s.stamps| && s.stamps[generation] <= v < |s.docs| && s.docs[v].space == space
    case Refused(i) => i + 1 == refusals <= |s.refusals| && s.refusals[i] == space
    case Unread => space == Mainnet
  }

  ghost predicate CustomIsRight(s: System, generation: nat, custom: seq<Custom>, from: Source) {
    match from
    case Version(v) => generation < |s.stamps| && s.stamps[generation] <= v < |s.docs| && s.docs[v].custom == custom
    case Refused(_) => false
    case Unread => custom == []
  }

  ghost predicate AnswerIsRight(s: System, a: Answer) {
    SpaceIsRight(s, a.generation, a.document.space, a.spaceFrom, a.refusals) &&
    CustomIsRight(s, a.generation, a.document.custom, a.customFrom)
  }

  ghost predicate AnswersAreRight(s: System) {
    forall a | a in s.answers :: AnswerIsRight(s, a)
  }

  /** The store takes another space while a switch that landed has yet to change the snapshot. */
  ghost predicate Disturbs(s: System, a: Action)
    requires s.docs != []
  {
    Replacement(s, a).Some? &&
    exists t :: s.At(t).Patching? && s.At(t).landed && s.At(t).space != Replacement(s, a).value.space
  }

  ghost predicate Undisturbed(s: System, actions: seq<Action>)
    requires s.docs != [] && s.stamps != []
  {
    forall k | 0 <= k < |actions| :: !Disturbs(RunFrom(s, actions[..k]), actions[k])
  }

  ghost predicate PhaseIsRight(s: System, t: Thread)
    requires s.docs != []
  {
    match s.At(t)
    case HasSpace(g, space, from) => !from.Refused? && SpaceIsRight(s, g, space, from, 0)
    case SwitchCounting(space, landed) => landed ==> s.docs[s.Newest()].space == space
    case Patching(space, landed) => landed ==> s.docs[s.Newest()].space == space
    case _ => true
  }

  ghost predicate KeptIsRight(s: System) {
    s.kept.Some? ==>
      SpaceIsRight(s, s.kept.value.generation, s.kept.value.document.space, s.spaceFrom, |s.refusals|) &&
      CustomIsRight(s, s.kept.value.generation, s.kept.value.document.custom, s.customFrom)
  }

  ghost predicate Right(s: System) {
    Sound(s) && KeptIsRight(s) && (forall t :: PhaseIsRight(s, t)) && AnswersAreRight(s)
  }

  lemma StillRight(s: System, n: System, a: Answer)
    requires Grown(s, n) && AnswerIsRight(s, a)
    ensures AnswerIsRight(n, a)
  {
  }

  /** A reader that has read the store, or a switch that has written it, is about to change the snapshot. */
  predicate ChangesKept(s: System, a: Action) {
    (a.ReadCustom? && s.At(a.t).HasSpace?) || (a.Patch? && s.At(a.t).Patching? && !s.locked)
  }

  lemma KeptUnchanged(s: System, a: Action)
    requires StampsAreRight(s) && !ChangesKept(s, a)
    ensures var n := Next(s, a);
            n.kept == s.kept && n.spaceFrom == s.spaceFrom && n.customFrom == s.customFrom && n.refusals == s.refusals
  {
  }

  lemma KeptStaysRight(s: System, a: Action)
    requires Right(s)
    ensures KeptIsRight(Next(s, a))
  {
    assert PhaseIsRight(s, a.t) && GenerationOf(s.At(a.t)) < |s.stamps|;
    if !ChangesKept(s, a) {
      KeptUnchanged(s, a);
      hide Next;
    }
  }

  lemma WhatIsStored(s: System, a: Action)
    requires StampsAreRight(s)
    ensures Next(s, a).docs == if Replacement(s, a).Some? then s.docs + [Replacement(s, a).value] else s.docs
    ensures Replacement(s, a).Some? ==> !s.writing && s.At(a.t).Idle?
  {
  }

  lemma OwnPhaseIsRight(s: System, a: Action)
    requires Sound(s) && PhaseIsRight(s, a.t)
    ensures PhaseIsRight(Next(s, a), a.t)
  {
    assert GenerationOf(s.At(a.t)) < |s.stamps|;
  }

  lemma PhaseStaysRight(s: System, a: Action, t: Thread)
    requires Right(s) && !Disturbs(s, a)
    ensures PhaseIsRight(Next(s, a), t)
  {
    assert PhaseIsRight(s, t);
    if t == a.t {
      OwnPhaseIsRight(s, a);
    } else {
      hide Next;
      OthersPhases(s, a, t);
      WhatIsStored(s, a);
      assert Counts(s, t) ==> s.writing;
    }
  }

  lemma AnswersStayRight(s: System, a: Action, x: Answer)
    requires Right(s) && x in Next(s, a).answers
    ensures AnswerIsRight(Next(s, a), x)
  {
    GenerationsStayRight(s, a);
    if x in s.answers {
      StillRight(s, Next(s, a), x);
    } else {
      assert PhaseIsRight(s, a.t) && GenerationOf(s.At(a.t)) < |s.stamps|;
    }
  }

  lemma RightStays(s: System, a: Action)
    requires Right(s) && !Disturbs(s, a)
    ensures Right(Next(s, a))
  {
    hide Next;
    SoundStays(s, a);
    KeptStaysRight(s, a);
    forall t ensures PhaseIsRight(Next(s, a), t) { PhaseStaysRight(s, a, t); }
    forall x | x in Next(s, a).answers ensures AnswerIsRight(Next(s, a), x) { AnswersStayRight(s, a, x); }
  }

  lemma {:induction false} StaysRight(s: System, actions: seq<Action>)
    requires Right(s) && Undisturbed(s, actions)
    ensures Right(RunFrom(s, actions))
  {
    if actions != [] {
      hide Next;
      var n := |actions| - 1;
      forall k | 0 <= k < n
        ensures !Disturbs(RunFrom(s, actions[..n][..k]), actions[..n][k])
      {
        assert actions[..n][..k] == actions[..k];
      }
      StaysRight(s, actions[..n]);
      RightStays(RunFrom(s, actions[..n]), actions[n]);
    }
  }

  /** Whatever reads, writes and switches interleave: as long as the store keeps the space of each switch that
      landed until the switch has changed the snapshot, every answer holds every write counted by the generation
      its call read on entry, or the last switch the store refused, or the default of a read that failed. */
  lemma AnswersAreRecent(first: Document, actions: seq<Action>)
    requires Undisturbed(Start(first), actions)
    ensures Right(Run(first, actions))
  {
    StaysRight(Start(first), actions);
  }

  // ----- And only then -----

  /** Neither a write nor a switch begins. */
  ghost predicate Harmless(actions: seq<Action>) {
    forall a | a in actions :: !a.Write? && !a.Switch?
  }

  lemma HarmlessDisturbsNothing(s: System, actions: seq<Action>)
    requires s.docs != [] && s.stamps != [] && Harmless(actions)
    ensures Undisturbed(s, actions)
  {
    hide RunFrom;
    forall k | 0 <= k < |actions|
      ensures !Disturbs(RunFrom(s, actions[..k]), actions[k])
    {
      assert actions[k] in actions;
    }
  }

  /** There is always a thread that is doing nothing here. */
  lemma FreshThread(s: System) returns (r: Thread)
    ensures s.At(r).Idle?
  {
    r := Bound(s.phases.Keys);
  }

  /** Whoever is rereading the store gets done with it. */
  lemma Released(s: System) returns (more: seq<Action>)
    requires Sound(s)
    ensures Harmless(more)
    ensures var n := RunFrom(s, more);
            Sound(n) && !n.locked && n.docs == s.docs && n.stamps == s.stamps
            && forall u | !Reads(s, u) :: n.At(u) == s.At(u)
  {
    hide Next;
    more := [];
    if s.locked {
      var h :| Reads(s, h);
      if s.At(h).Reading? {
        OneMore(s, more, ReadSpace(h, true));
        more := more + [ReadSpace(h, true)];
        ReadingGoesOn(s, h);
        SoundStays(s, ReadSpace(h, true));
      }
      var n := RunFrom(s, more);
      assert Sound(n) && n.At(h).HasSpace? && n.docs == s.docs && n.stamps == s.stamps;
      ReadingEnds(n, h);
      SoundStays(n, ReadCustom(h, true));
      OneMore(s, more, ReadCustom(h, true));
      more := more + [ReadCustom(h, true)];
    }
  }

  lemma ReadingGoesOn(s: System, h: Thread)
    requires StampsAreRight(s) && s.At(h).Reading?
    ensures var n := Next(s, ReadSpace(h, true));
            n.At(h).HasSpace? && n.docs == s.docs && n.stamps == s.stamps
            && forall u | u != h :: n.At(u) == s.At(u)
  {
  }

  lemma ReadingEnds(s: System, h: Thread)
    requires StampsAreRight(s) && s.At(h).HasSpace?
    ensures var n := Next(s, ReadCustom(h, true));
            !n.locked && n.docs == s.docs && n.stamps == s.stamps && n.At(h).Idle?
            && forall u | u != h :: n.At(u) == s.At(u)
  {
  }

  lemma Counted(s: System, t: Thread)
    requires Sound(s) && Counts(s, t)
    ensures var n := Next(s, Count(t));
            n.docs == s.docs && n.stamps == s.stamps + [|s.docs| - 1] && n.locked == s.locked
            && !Current(n) && forall u | u != t :: n.At(u) == s.At(u)
  {
  }

  /** The calls of `with_snapshot` by a reader that nothing disturbs. */
  function Call(r: Thread): seq<Action> {
    [Enter(r), Look(r), ReadSpace(r, true), ReadCustom(r, true)]
  }

  /** The snapshot is filed under the count as it stands. */
  predicate Current(s: System) {
    s.kept.Some? && s.kept.value.generation == |s.stamps| - 1
  }

  /** Undisturbed, it leaves and answers the snapshot if that is current, else the store's document, filed under
      the count read on entry. */
  lemma CallUndisturbed(s: System, r: Thread)
    requires StampsAreRight(s) && !s.locked && s.At(r).Idle?
    ensures Refiles(s, RunFrom(s, Call(r)), r)
  {
    hide Next, RunFrom, Refiles;
    FourSteps(s, Enter(r), Look(r), ReadSpace(r, true), ReadCustom(r, true));
    Enters(s, r);
    if Current(s) {
      FindsFresh(s, r);
    } else {
      Rereads(s, r);
    }
  }

  ghost predicate Refiles(s: System, n: System, r: Thread)
    requires s.docs != [] && s.stamps != []
  {
    var filed := if Current(s) then s.kept.value else Filed(|s.stamps| - 1, s.docs[|s.docs| - 1]);
    n.kept == Some(filed) && |n.answers| == |s.answers| + 1 && s.answers <= n.answers
    && n.answers[|s.answers|].document == filed.document && n.answers[|s.answers|].generation == |s.stamps| - 1
    && !n.locked && n.writing == s.writing && n.docs == s.docs && n.stamps == s.stamps
    && n.refusals == s.refusals && n.At(r).Idle?
    && forall u | u != r :: n.At(u) == s.At(u)
  }

  lemma Enters(s: System, r: Thread)
    requires StampsAreRight(s) && s.At(r).Idle?
    ensures Next(s, Enter(r)) == s.Put(r, Entered(|s.stamps| - 1))
  {
  }

  lemma FindsFresh(s: System, r: Thread)
    requires StampsAreRight(s) && !s.locked && Current(s)
    ensures var n := Next(s.Put(r, Entered(|s.stamps| - 1)), Look(r));
            Next(Next(n, ReadSpace(r, true)), ReadCustom(r, true)) == n && Refiles(s, n, r)
  {
  }

  lemma Rereads(s: System, r: Thread)
    requires StampsAreRight(s) && !s.locked && !Current(s)
    ensures var s1 := Next(s.Put(r, Entered(|s.stamps| - 1)), Look(r));
            Refiles(s, Next(Next(s1, ReadSpace(r, true)), ReadCustom(r, true)), r)
  {
    var s0, g := s.Put(r, Entered(|s.stamps| - 1)), |s.stamps| - 1;
    assert s0.At(r) == Entered(g);
    var s1 := Next(s0, Look(r));
    assert s1 == s0.(locked := true).Put(r, Reading(g)) && s1.At(r) == Reading(g);
    var s2 := Next(s1, ReadSpace(r, true));
    assert s2.At(r) == HasSpace(g, s.docs[|s.docs| - 1].space, Version(|s.docs| - 1));
  }

  lemma ThreeSteps(s: System, a: Action, b: Action, c: Action)
    requires s.docs != [] && s.stamps != []
    ensures RunFrom(s, [a, b, c]) == Next(Next(Next(s, a), b), c)
  {
    hide Next, RunFrom;
    RunNothing(s);
    RunLast(s, [a]);
    RunLast(s, [a, b]);
    RunLast(s, [a, b, c]);
    assert [a][..0] == [] && [a, b][..1] == [a] && [a, b, c][..2] == [a, b];
  }

  lemma FourSteps(s: System, a: Action, b: Action, c: Action, d: Action)
    requires s.docs != [] && s.stamps != []
    ensures RunFrom(s, [a, b, c, d]) == Next(Next(Next(Next(s, a), b), c), d)
  {
    hide Next, RunFrom;
    ThreeSteps(s, a, b, c);
    RunLast(s, [a, b, c, d]);
    assert [a, b, c, d][..3] == [a, b, c];
  }

  lemma PatchedIs(s: System, t: Thread)
    requires StampsAreRight(s) && !s.locked && s.At(t).Patching?
    ensures var n := Next(s, Patch(t));
            n.docs == s.docs && n.stamps == s.stamps && !n.locked && n.kept == Patched(s.kept, s.At(t).space)
            && n.answers == s.answers && n.At(t).Idle? && (forall u | u != t :: n.At(u) == s.At(u))
            && n.spaceFrom == if s.At(t).landed then Version(|s.docs| - 1) else Refused(|s.refusals|)
  {
  }

  lemma FoundFresh(s: System, r: Thread)
    requires StampsAreRight(s) && !s.locked && s.At(r).Idle? && Current(s)
    ensures var n := Next(Next(s, Enter(r)), Look(r));
            n.docs == s.docs && n.stamps == s.stamps && n.refusals == s.refusals && |n.answers| == |s.answers| + 1
            && n.answers[|s.answers|] == Answer(|s.stamps| - 1, s.kept.value.document, s.spaceFrom, s.customFrom, |s.refusals|)
  {
  }

  /** No version of the document that holds the writes counted on entry has the space answered. */
  ghost predicate Stale(s: System, x: Answer) {
    x.generation < |s.stamps| &&
    forall v | s.stamps[x.generation] <= v < |s.docs| :: s.docs[v].space != x.document.space
  }

  /** The last call read `generation` on entry and was answered with a space gone by then. */
  ghost predicate AnsweredStale(s: System, generation: nat) {
    s.answers != [] &&
    var x := s.answers[|s.answers| - 1]; x.generation == generation && Stale(s, x) && !AnswerIsRight(s, x)
  }

  /** The write is counted, a call files the document, the switch overwrites the space in it, and the
      next call is answered with that. */
  lemma SwitchOverwrites(s: System, t: Thread, writer: Thread) returns (more: seq<Action>)
    requires Sound(s) && !s.locked && Counts(s, writer)
    requires s.At(t).Patching? && s.At(t).landed && s.At(t).space != s.docs[s.Newest()].space
    ensures Harmless(more) && AnsweredStale(RunFrom(s, more), |s.stamps|)
    ensures var n := RunFrom(s, more); n.docs == s.docs && n.stamps == s.stamps + [|s.docs| - 1]
  {
    hide Next, RunFrom;
    var s1 := Next(s, Count(writer));
    Counted(s, writer);
    SoundStays(s, Count(writer));
    var r := FreshThread(s1);
    var s2 := RunFrom(s1, Call(r));
    AlwaysSound(s1, Call(r));
    CallUndisturbed(s1, r);
    PatchedIs(s2, t);
    SoundStays(s2, Patch(t));
    FoundFresh(Next(s2, Patch(t)), r);
    var last := [Patch(t), Enter(r), Look(r)];
    ThreeSteps(s2, Patch(t), Enter(r), Look(r));
    Continued(s1, Call(r), last);
    OneMore(s, [], Count(writer));
    RunNothing(s);
    Continued(s, [] + [Count(writer)], Call(r) + last);
    more := ([] + [Count(writer)]) + (Call(r) + last);
  }

  lemma DisturbingStep(s: System, a: Action)
    requires Sound(s) && Disturbs(s, a)
    ensures var n := Next(s, a);
            Counts(n, a.t) && n.docs == s.docs + [Replacement(s, a).value] && n.locked == s.locked && n.stamps == s.stamps
            && forall u | u != a.t :: n.At(u) == s.At(u)
  {
  }

  /** From every disturbed state the run can go on, without another write or switch, to a call that reads the
      very count the disturbing write makes, and is answered with a space no version from then on has. */
  lemma DisturbedSwitchGoesWrong(s: System, a: Action) returns (more: seq<Action>)
    requires Sound(s) && Disturbs(s, a)
    ensures Harmless(more) && AnsweredStale(RunFrom(Next(s, a), more), |s.stamps|)
    ensures var n := RunFrom(Next(s, a), more); n.docs == s.docs + [Replacement(s, a).value] && n.stamps == s.stamps + [|s.docs|]
  {
    hide Next, RunFrom;
    var t :| s.At(t).Patching? && s.At(t).landed && s.At(t).space != Replacement(s, a).value.space;
    var s1 := Next(s, a);
    DisturbingStep(s, a);
    SoundStays(s, a);
    WhatIsStored(s, a);
    var first := Released(s1);
    var s2 := RunFrom(s1, first);
    assert !Reads(s1, t) && !Reads(s1, a.t);
    var rest := SwitchOverwrites(s2, t, a.t);
    Continued(s1, first, rest);
    more := first + rest;
  }

  /** However a prefix of the run goes on without a write or a switch, its answers are right. */
  ghost predicate RightHoweverItGoesOn(first: Document, actions: seq<Action>) {
    forall k, more | 0 <= k <= |actions| && Harmless(more) :: AnswersAreRight(RunFrom(Run(first, actions[..k]), more))
  }

  /** The answers of a run are right, however each prefix of it goes on, if and only if nothing in it disturbs
      a switch. */
  lemma RightExactlyWhenUndisturbed(first: Document, actions: seq<Action>)
    ensures RightHoweverItGoesOn(first, actions) <==> Undisturbed(Start(first), actions)
  {
    hide Next, RunFrom, AnswersAreRight;
    var s := Start(first);
    StartIsRight(first);
    if Undisturbed(s, actions) {
      forall k, more | 0 <= k <= |actions| && Harmless(more)
        ensures AnswersAreRight(RunFrom(Run(first, actions[..k]), more))
      {
        forall j | 0 <= j < k
          ensures !Disturbs(RunFrom(s, actions[..k][..j]), actions[..k][j])
        {
          assert actions[..k][..j] == actions[..j];
        }
        StaysRight(s, actions[..k]);
        HarmlessDisturbsNothing(RunFrom(s, actions[..k]), more);
        StaysRight(RunFrom(s, actions[..k]), more);
      }
    }
    if k :| 0 <= k < |actions| && Disturbs(RunFrom(s, actions[..k]), actions[k]) {
      RunIsSound(first, actions[..k]);
      var more := DisturbedSwitchGoesWrong(RunFrom(s, actions[..k]), actions[k]);
      OneMore(s, actions[..k], actions[k]);
      assert actions[..k + 1] == actions[..k] + [actions[k]];
      StaleIsNotRight(RunFrom(Run(first, actions[..k + 1]), more), |RunFrom(s, actions[..k]).stamps|);
    }
  }

  lemma StartIsRight(first: Document)
    ensures Right(Start(first))
  {
  }

  lemma StaleIsNotRight(s: System, generation: nat)
    requires AnsweredStale(s, generation)
    ensures !AnswersAreRight(s)
  {
    assert s.answers[|s.answers| - 1] in s.answers;
  }

  /** Two switching threads are enough, and so are a switching thread and one that erases the store. */
  lemma DisturbancesHappen(first: Document, custom: seq<Custom>)
    ensures var s := Run(first, [Switch(0, Testnet, true, true), Count(0)]);
            Disturbs(s, Switch(1, Mainnet, true, true)) && Disturbs(s, Write(1, Document(Mainnet, custom), true))
  {
    hide RunFrom;
    var switching := [Switch(0, Testnet, true, true), Count(0)];
    RunLast(Start(first), switching);
    RunLast(Start(first), switching[..1]);
    RunNothing(Start(first));
    assert switching[..1][..0] == [];
    var s1 := Next(Start(first), switching[0]);
    assert s1.At(0) == SwitchCounting(Testnet, true);
    var s := Run(first, switching);
    assert s.At(0) == Patching(Testnet, true) && s.At(1).Idle? && !s.writing;
  }

  // ----- A switch the store refused -----

  /** The snapshot is current, and no call is about to refile it under an older count. */
  ghost predicate Settled(s: System) {
    Current(s) &&
    forall u | s.At(u).Entered? :: s.At(u).generation == |s.stamps| - 1
  }

  /** Nothing is counted and nothing switched. */
  ghost predicate Uncounted(actions: seq<Action>) {
    forall a | a in actions :: !a.Count? && !a.Switch? && !a.Patch?
  }

  /** Nor does a read fail, or a write replace the space. */
  ghost predicate Calm(actions: seq<Action>, stored: Space) {
    Uncounted(actions) &&
    forall a | a in actions :: (a.ReadSpace? ==> a.ok) && (a.Write? && a.landed ==> a.document.space == stored)
  }

  ghost predicate AnsweredWith(n: System, from: nat, space: Space) {
    forall i | from <= i < |n.answers| :: n.answers[i].document.space == space
  }

  /** The snapshot, current and unlocked, has `space`. */
  ghost predicate Holds(n: System, space: Space) {
    !n.locked && (forall t :: !Reads(n, t)) && Settled(n) && n.kept.value.document.space == space
  }

  lemma HoldsOn(n: System, a: Action, from: nat, space: Space)
    requires StampsAreRight(n) && Holds(n, space) && AnsweredWith(n, from, space) && Uncounted([a])
    ensures Holds(Next(n, a), space) && AnsweredWith(Next(n, a), from, space)
  {
    assert a in [a] && !Reads(n, a.t);
    assert n.At(a.t).Entered? ==> n.At(a.t).generation == |n.stamps| - 1;
    assert !Reads(Next(n, a), a.t);
    forall t
      ensures !Reads(Next(n, a), t) && (Next(n, a).At(t).Entered? ==> Next(n, a).At(t).generation == |n.stamps| - 1)
    {
      if t != a.t {
        OthersPhases(n, a, t);
        assert !Reads(n, t);
      }
    }
  }

  lemma {:induction false} KeepsHolding(p: System, more: seq<Action>, space: Space)
    requires Sound(p) && Holds(p, space) && Uncounted(more)
    ensures Holds(RunFrom(p, more), space) && AnsweredWith(RunFrom(p, more), |p.answers|, space)
  {
    if more != [] {
      hide Next;
      var n, a := |more| - 1, more[|more| - 1];
      assert forall x | x in more[..n] :: x in more;
      KeepsHolding(p, more[..n], space);
      AlwaysSound(p, more[..n]);
      assert a in more;
      HoldsOn(RunFrom(p, more[..n]), a, |p.answers|, space);
    }
  }

  /** Whatever is kept, being read or stored has `space`. */
  ghost predicate AllHave(n: System, space: Space)
    requires n.docs != []
  {
    n.docs[n.Newest()].space == space && (n.kept.Some? ==> n.kept.value.document.space == space) &&
    forall t | n.At(t).HasSpace? :: n.At(t).space == space
  }

  lemma AllHaveOn(n: System, a: Action, from: nat, space: Space)
    requires StampsAreRight(n) && AllHave(n, space) && AnsweredWith(n, from, space) && Calm([a], space)
    ensures AllHave(Next(n, a), space) && AnsweredWith(Next(n, a), from, space)
  {
    assert a in [a];
    forall t | Next(n, a).At(t).HasSpace?
      ensures Next(n, a).At(t).space == space
    {
      if t != a.t { OthersPhases(n, a, t); }
    }
  }

  lemma {:induction false} StillAllHave(p: System, more: seq<Action>, space: Space)
    requires Sound(p) && AllHave(p, space) && Calm(more, space)
    ensures AllHave(RunFrom(p, more), space) && AnsweredWith(RunFrom(p, more), |p.answers|, space)
  {
    if more != [] {
      hide Next;
      var n, a := |more| - 1, more[|more| - 1];
      assert forall x | x in more[..n] :: x in more;
      StillAllHave(p, more[..n], space);
      AlwaysSound(p, more[..n]);
      assert a in more;
      AllHaveOn(RunFrom(p, more[..n]), a, |p.answers|, space);
    }
  }

  /** A switch that finds the snapshot settled holds until a write is counted or another switch is made, whatever
      is written, read or fails to be read before that. */
  lemma SettledSwitchHolds(first: Document, actions: seq<Action>, t: Thread, more: seq<Action>)
    requires var s := Run(first, actions); s.At(t).Patching? && !s.locked && Settled(s)
    requires Uncounted(more)
    ensures var s := Run(first, actions); var p := Next(s, Patch(t));
            AnsweredWith(RunFrom(p, more), |p.answers|, s.At(t).space)
  {
    hide Next;
    var s := Run(first, actions);
    RunIsSound(first, actions);
    PatchedIs(s, t);
    SoundStays(s, Patch(t));
    KeepsHolding(Next(s, Patch(t)), more, s.At(t).space);
  }

  /** A switch the store refused is meant to hold for the run. As long as nothing is counted, switched or
      unreadable, every later answer has its space if and only if it found the snapshot settled, or the store
      has that space anyway. */
  lemma RefusedSwitchHolds(first: Document, actions: seq<Action>, t: Thread)
    requires var s := Run(first, actions); s.At(t).Patching? && !s.At(t).landed && !s.locked
    ensures var s := Run(first, actions); var p, stored := Next(s, Patch(t)), s.docs[s.Newest()].space;
            (forall more | Calm(more, stored) :: AnsweredWith(RunFrom(p, more), |p.answers|, s.At(t).space))
            <==> Settled(s) || stored == s.At(t).space
  {
    hide Next, RunFrom;
    var s := Run(first, actions);
    var p, stored, space := Next(s, Patch(t)), s.docs[s.Newest()].space, s.At(t).space;
    RunIsSound(first, actions);
    PatchedIs(s, t);
    SoundStays(s, Patch(t));
    if Settled(s) || stored == space {
      forall more | Calm(more, stored)
        ensures AnsweredWith(RunFrom(p, more), |p.answers|, space)
      {
        if Settled(s) {
          SettledSwitchHolds(first, actions, t, more);
        } else {
          assert forall u | p.At(u).HasSpace? :: Reads(p, u);
          StillAllHave(p, more, space);
        }
      }
    } else {
      var more := RefusedSwitchIsForgotten(s, t);
      assert !AnsweredWith(RunFrom(p, more), |p.answers|, space);
    }
  }

  /** Otherwise a call that starts after the switch can be answered with what the store says: a straggler has
      refiled it, or the call itself rereads it. */
  lemma RefusedSwitchIsForgotten(s: System, t: Thread) returns (more: seq<Action>)
    requires Sound(s) && s.At(t).Patching? && !s.locked && !Settled(s)
    ensures Calm(more, s.docs[s.Newest()].space)
    ensures var p := Next(s, Patch(t)); var n := RunFrom(p, more);
            |p.answers| < |n.answers|
            && n.answers[|n.answers| - 1].document.space == s.docs[s.Newest()].space
            && n.answers[|n.answers| - 1].generation == |s.stamps| - 1
            && exists before, r :: p.At(r).Idle? && more == before + Call(r)
  {
    hide Next, RunFrom;
    var p := Next(s, Patch(t));
    PatchedIs(s, t);
    SoundStays(s, Patch(t));
    if !Current(s) {
      var r := FreshThread(p);
      CallUndisturbed(p, r);
      more := Call(r);
      assert more == [] + Call(r);
    } else {
      var u :| s.At(u).Entered? && s.At(u).generation != |s.stamps| - 1;
      assert GenerationOf(s.At(u)) < |s.stamps|;
      var r := FreshThread(p);
      StragglerRefiles(p, u, r);
      more := [Look(u), ReadSpace(u, true), ReadCustom(u, true)] + Call(r);
    }
  }

  lemma StragglerRefiles(p: System, u: Thread, r: Thread)
    requires Sound(p) && !p.locked && p.At(u).Entered? && p.At(u).generation != |p.stamps| - 1 && p.At(r).Idle?
    requires Current(p)
    ensures var n := RunFrom(p, [Look(u), ReadSpace(u, true), ReadCustom(u, true)] + Call(r));
            |n.answers| == |p.answers| + 2 && n.answers[|p.answers| + 1].generation == |p.stamps| - 1
            && n.answers[|p.answers| + 1].document.space == p.docs[p.Newest()].space
  {
    hide Next, RunFrom;
    ThreeSteps(p, Look(u), ReadSpace(u, true), ReadCustom(u, true));
    StragglerFiles(p, u);
    var n := RunFrom(p, [Look(u), ReadSpace(u, true), ReadCustom(u, true)]);
    AlwaysSound(p, [Look(u), ReadSpace(u, true), ReadCustom(u, true)]);
    CallUndisturbed(n, r);
    Continued(p, [Look(u), ReadSpace(u, true), ReadCustom(u, true)], Call(r));
  }

  lemma StragglerFiles(p: System, u: Thread)
    requires StampsAreRight(p) && !p.locked && p.At(u).Entered? && !IsFresh(p.kept, p.At(u).generation)
    ensures var n := Next(Next(Next(p, Look(u)), ReadSpace(u, true)), ReadCustom(u, true));
            n.kept == Some(Filed(p.At(u).generation, p.docs[p.Newest()])) && |n.answers| == |p.answers| + 1
            && !n.locked && n.docs == p.docs && n.stamps == p.stamps && forall v | v != u :: n.At(v) == p.At(v)
  {
    var s1 := Next(p, Look(u));
    assert s1 == p.(locked := true).Put(u, Reading(p.At(u).generation)) && s1.At(u).Reading?;
    var s2 := Next(s1, ReadSpace(u, true));
    assert s2.At(u) == HasSpace(p.At(u).generation, p.docs[p.Newest()].space, Version(p.Newest()));
  }

  lemma RefusedUncounted(s: System, t: Thread, space: Space)
    requires StampsAreRight(s) && s.At(t).Idle? && !s.writing
    ensures Next(s, Switch(t, space, false, false)) == s.Put(t, Patching(space, false))
  {
  }

  function Begun(first: Document): seq<Action> {
    [Enter(1), Write(2, first, true), Count(2)]
  }

  lemma StragglerEnters(first: Document)
    ensures Run(first, Begun(first)) ==
            System([first, first], [0, 1], false, None, Unread, Unread, false, map[1 := Entered(0), 2 := Idle], [], [])
  {
    var s1 := Next(Start(first), Enter(1));
    assert s1 == Start(first).Put(1, Entered(0));
    var s2 := Next(s1, Write(2, first, true));
    assert s2.At(2) == Counting;
    var s3 := Next(s2, Count(2));
    assert s3.phases == map[1 := Entered(0), 2 := Idle];
    hide RunFrom;
    ThreeSteps(Start(first), Enter(1), Write(2, first, true), Count(2));
  }

  /** It takes one switching thread: a call reads the count before a write is counted, another call files the
      document, a switch is refused uncounted and patches it, and then the first call goes on. */
  lemma StragglerRun(first: Document)
    requires first.space == Mainnet
    ensures var s := Run(first, Begun(first) + Call(3) + [Switch(4, Testnet, false, false)]);
            s.At(4) == Patching(Testnet, false) && !s.locked && Current(s) && !Settled(s)
            && exists more :: Calm(more, Mainnet) && !AnsweredWith(RunFrom(Next(s, Patch(4)), more), |s.answers|, Testnet)
  {
    hide Next, RunFrom, Begun;
    var actions := Begun(first) + Call(3) + [Switch(4, Testnet, false, false)];
    StragglerEnters(first);
    var s3 := Run(first, Begun(first));
    RunIsSound(first, Begun(first));
    CallUndisturbed(s3, 3);
    Continued(Start(first), Begun(first), Call(3));
    var s4 := RunFrom(s3, Call(3));
    OneMore(Start(first), Begun(first) + Call(3), Switch(4, Testnet, false, false));
    AlwaysSound(s3, Call(3));
    RefusedUncounted(s4, 4, Testnet);
    var s := Run(first, actions);
    assert s.At(1) == s4.At(1) == Entered(0);
    RunIsSound(first, actions);
    var more := RefusedSwitchIsForgotten(s, 4);
    PatchedIs(s, 4);
    assert !AnsweredWith(RunFrom(Next(s, Patch(4)), more), |s.answers|, Testnet);
  }

  // ----- One call at a time -----

  /** What a caller does to the store and the snapshot. */
  datatype Turn =
    | Asked
    | Written(document: Document, landed: bool)
    | Switched(space: Space, landed: bool, counted: bool)

  function Steps(turn: Turn): seq<Action> {
    match turn
    case Asked => Call(0)
    case Written(document, landed) => [Write(0, document, landed), Count(0)]
    case Switched(space, landed, counted) => [Switch(0, space, landed, counted), Count(0), Patch(0)]
  }

  function AllSteps(turns: seq<Turn>): seq<Action> {
    if turns == [] then [] else AllSteps(turns[..|turns| - 1]) + Steps(turns[|turns| - 1])
  }

  function Documents(answers: seq<Answer>): seq<Document> {
    seq(|answers|, i requires 0 <= i < |answers| => answers[i].document)
  }

  /** Nobody is at work, and this is what is kept, counted, stored and answered. */
  ghost predicate Stands(s: System, kept: Option<Filed>, count: nat, stored: Document, answers: seq<Document>) {
    Sound(s) && !s.locked && !s.writing && s.At(0).Idle? && s.kept == kept && |s.stamps| == count + 1 &&
    s.docs[s.Newest()] == stored && Documents(s.answers) == answers
  }

  lemma AskedAlone(s: System, kept: Option<Filed>, count: nat, stored: Document, answers: seq<Document>)
    requires Stands(s, kept, count, stored, answers)
    ensures var filed := Refiled(kept, count, stored);
            Stands(RunFrom(s, Steps(Asked)), Some(filed), count, stored, answers + [filed.document])
  {
    hide Next, RunFrom, Sound;
    AlwaysSound(s, Call(0));
    assert StampsAreRight(s) by { SoundHasStamps(s); }
    CallUndisturbed(s, 0);
  }

  lemma SoundHasStamps(s: System)
    requires Sound(s)
    ensures StampsAreRight(s)
  {
  }

  lemma WrittenAlone(s: System, kept: Option<Filed>, count: nat, stored: Document, answers: seq<Document>,
                     document: Document, landed: bool)
    requires Stands(s, kept, count, stored, answers)
    ensures Stands(RunFrom(s, Steps(Written(document, landed))), kept, count + 1, if landed then document else stored, answers)
  {
    var steps := Steps(Written(document, landed));
    AlwaysSound(s, steps);
    hide RunFrom, Sound;
    TwoSteps(s, steps[0], steps[1]);
    var s1 := Next(s, steps[0]);
    assert s1.At(0) == Counting && s1.docs[s1.Newest()] == if landed then document else stored;
  }

  lemma SwitchedAlone(s: System, kept: Option<Filed>, count: nat, stored: Document, answers: seq<Document>,
                      space: Space, landed: bool, counted: bool)
    requires Stands(s, kept, count, stored, answers)
    ensures Stands(RunFrom(s, Steps(Switched(space, landed, counted))), Patched(kept, space),
                   if landed || counted then count + 1 else count,
                   if landed then stored.(space := space) else stored, answers)
  {
    var steps := Steps(Switched(space, landed, counted));
    AlwaysSound(s, steps);
    hide RunFrom, Sound;
    ThreeSteps(s, steps[0], steps[1], steps[2]);
    var s1 := Next(s, steps[0]);
    assert s1.docs[s1.Newest()] == if landed then stored.(space := space) else stored;
    assert s1.At(0) == if landed || counted then SwitchCounting(space, landed) else Patching(space, false);
    var s2 := Next(s1, steps[1]);
    assert s2.At(0) == Patching(space, landed);
  }

  lemma TwoSteps(s: System, a: Action, b: Action)
    requires s.docs != [] && s.stamps != []
    ensures RunFrom(s, [a, b]) == Next(Next(s, a), b)
  {
    hide Next, RunFrom;
    RunNothing(s);
    RunLast(s, [a]);
    RunLast(s, [a, b]);
    assert [a][..0] == [] && [a, b][..1] == [a];
  }

  lemma OneMoreTurn(first: Document, turns: seq<Turn>, i: nat)
    requires i < |turns|
    ensures Run(first, AllSteps(turns[..i + 1])) == RunFrom(Run(first, AllSteps(turns[..i])), Steps(turns[i]))
  {
    hide Next, RunFrom, Steps;
    assert turns[..i + 1][..i] == turns[..i];
    Continued(Start(first), AllSteps(turns[..i]), Steps(turns[i]));
  }

  /** One caller after another, the snapshot goes through the very states of the interleaved steps. */
  method OneAtATime(first: Document, turns: seq<Turn>) returns (cell: SnapshotCell, answers: seq<Document>)
    ensures var s := Run(first, AllSteps(turns)); cell.kept == s.kept && answers == Documents(s.answers)
  {
    hide Next, RunFrom, Sound;
    cell := new SnapshotCell();
    answers := [];
    var count, stored := 0, first;
    RunIsSound(first, []);
    RunNothing(Start(first));
    for i := 0 to |turns|
      invariant Stands(Run(first, AllSteps(turns[..i])), cell.kept, count, stored, answers)
    {
      OneMoreTurn(first, turns, i);
      ghost var s := Run(first, AllSteps(turns[..i]));
      match turns[i] {
        case Asked =>
          AskedAlone(s, cell.kept, count, stored, answers);
          var answer := cell.WithSnapshot(count, stored);
          answers := answers + [answer];
        case Written(document, landed) =>
          WrittenAlone(s, cell.kept, count, stored, answers, document, landed);
          stored := if landed then document else stored;
          count := count + 1;
        case Switched(space, landed, counted) =>
          SwitchedAlone(s, cell.kept, count, stored, answers, space, landed, counted);
          stored := if landed then stored.(space := space) else stored;
          count := if landed || counted then count + 1 else count;
          cell.Switch(space);
      }
    }
    assert turns[..|turns|] == turns;
  }
}
