/** Every interleaving of any number of threads on one ceremony channel.

    A thread holds a mailbox's lock from taking it to the wait, the return or the
    unlock, so a run is a sequence of critical sections, of the `notify_all` calls
    that come after the lock is released, and of wakeups nobody asked for. */
module CeremonyRuns {
  import opened Wrappers
  import opened Ceremony

  type Thread = nat

  /** Where a thread stands. A blocked call remembers which question it asked. */
  datatype Place =
    | Idle
    | PinAsleep(request: PinRequest, ask: nat)
    | PinAwake(request: PinRequest, ask: nat)
    | PickAsleep(choiceAsk: nat)
    | PickAwake(choiceAsk: nat)
    | PinAnswerPosted       // `answer_pin` before its `notify_all`
    | PickAnswerPosted
    | ClosedPin             // `close` after its PIN half
    | ClosedBoth            // after its picker half
    | ClosedPinNotified     // after waking the PIN sleepers

  /** An answer as it was posted, and the question on screen at that moment. */
  datatype Post<+T> = Post(value: Option<T>, showing: Option<nat>)

  /** A finished PIN call: the question it asked, unless it never blocked, and the
      post its result comes from, unless the channel was closed. */
  datatype Returned = Returned(request: PinRequest, ask: Option<nat>, result: Option<Pin>, post: Option<nat>)

  /** The same for a wallet. */
  datatype Picked = Picked(ask: Option<nat>, result: Option<nat>, post: Option<nat>)

  /** `asks`, `posts`, `pins`, `choiceAsks`, `choicePosts`, `picks` and `closes` record the run; `showing`,
      `answerPost`, `cachedPosts`, `choiceShowing` and `choicePost` say which of them the mailboxes hold. */
  datatype System = System(
    pin: PinState, pick: PickState, places: map<Thread, Place>,
    asks: seq<PinRequest>, posts: seq<Post<Pin>>, pins: seq<Returned>,
    choiceAsks: seq<seq<string>>, choicePosts: seq<Post<nat>>, picks: seq<Picked>, closes: nat,
    showing: Option<nat>, answerPost: nat, cachedPosts: map<Device, nat>,
    choiceShowing: Option<nat>, choicePost: nat)
  {
    function At(t: Thread): Place {
      if t in places then places[t] else Idle
    }

    function Put(t: Thread, p: Place): System {
      this.(places := places[t := p])
    }
  }

  const START := System(
    PinState(None, None, map[], false), PickState(None, None, false), map[],
    [], [], [], [], [], [], 0, None, 0, map[], None, 0)

  datatype Action =
    | RequestPin(t: Thread, request: PinRequest)
    | StirPin(t: Thread)
    | ResumePin(t: Thread)
    | AnswerPin(t: Thread, value: Option<Pin>)
    | NotifyPin(t: Thread)
    | RequestChoice(t: Thread, choices: seq<string>)
    | StirPick(t: Thread)
    | ResumeChoice(t: Thread)
    | AnswerChoice(t: Thread, index: Option<nat>)
    | NotifyPick(t: Thread)
    | Close(t: Thread)

  function WakePin(places: map<Thread, Place>): map<Thread, Place> {
    map t | t in places :: if places[t].PinAsleep? then PinAwake(places[t].request, places[t].ask) else places[t]
  }

  function WakePick(places: map<Thread, Place>): map<Thread, Place> {
    map t | t in places :: if places[t].PickAsleep? then PickAwake(places[t].choiceAsk) else places[t]
  }

  /** An action its thread is in no position to take does nothing. */
  function Next(s: System, a: Action): System {
    match a
    case RequestPin(t, request) => if s.At(t).Idle? then AfterRequestPin(s, t, request) else s
    case StirPin(t) => if s.At(t).PinAsleep? then s.Put(t, PinAwake(s.At(t).request, s.At(t).ask)) else s
    case ResumePin(t) => if s.At(t).PinAwake? then AfterResumePin(s, t, s.At(t).request, s.At(t).ask) else s
    case AnswerPin(t, value) => if s.At(t).Idle? then AfterAnswerPin(s, t, value) else s
    case NotifyPin(t) => if s.At(t).PinAnswerPosted? then s.(places := WakePin(s.places)).Put(t, Idle) else s
    case RequestChoice(t, choices) => if s.At(t).Idle? then AfterRequestChoice(s, t, choices) else s
    case StirPick(t) => if s.At(t).PickAsleep? then s.Put(t, PickAwake(s.At(t).choiceAsk)) else s
    case ResumeChoice(t) => if s.At(t).PickAwake? then AfterResumeChoice(s, t, s.At(t).choiceAsk) else s
    case AnswerChoice(t, index) => if s.At(t).Idle? then AfterAnswerChoice(s, t, index) else s
    case NotifyPick(t) => if s.At(t).PickAnswerPosted? then s.(places := WakePick(s.places)).Put(t, Idle) else s
    case Close(t) => AfterClose(s, t)
  }

  function AfterRequestPin(s: System, t: Thread, request: PinRequest): System {
    match PinRequested(s.pin, request)
    case (pin, Wait) =>
      s.(pin := pin, asks := s.asks + [request], showing := Some(|s.asks|),
         cachedPosts := if request.retry then s.cachedPosts - {request.device} else s.cachedPosts)
      .Put(t, PinAsleep(request, |s.asks|))
    case (pin, Return(result)) =>
      var post := if request.device in s.cachedPosts then Some(s.cachedPosts[request.device]) else None;
      s.(pin := pin, pins := s.pins + [Returned(request, None, result, post)])
  }

  function AfterResumePin(s: System, t: Thread, request: PinRequest, ask: nat): System {
    match PinResumed(s.pin, request.device)
    case (pin, Wait) => s.Put(t, PinAsleep(request, ask))
    case (pin, Return(result)) =>
      if s.pin.closed then
        s.(pins := s.pins + [Returned(request, Some(ask), result, None)]).Put(t, Idle)
      else
        s.(pin := pin, pins := s.pins + [Returned(request, Some(ask), result, Some(s.answerPost))], showing := None,
           cachedPosts := if result.Some? then s.cachedPosts[request.device := s.answerPost]
                          else s.cachedPosts - {request.device})
        .Put(t, Idle)
  }

  function AfterAnswerPin(s: System, t: Thread, value: Option<Pin>): System {
    s.(pin := PinAnswered(s.pin, value), posts := s.posts + [Post(value, s.showing)], answerPost := |s.posts|)
    .Put(t, PinAnswerPosted)
  }

  function AfterRequestChoice(s: System, t: Thread, choices: seq<string>): System {
    match ChoiceRequested(s.pick, choices)
    case (pick, Wait) =>
      s.(pick := pick, choiceAsks := s.choiceAsks + [choices], choiceShowing := Some(|s.choiceAsks|))
      .Put(t, PickAsleep(|s.choiceAsks|))
    case (pick, Return(result)) => s.(pick := pick, picks := s.picks + [Picked(None, result, None)])
  }

  function AfterResumeChoice(s: System, t: Thread, ask: nat): System {
    match ChoiceResumed(s.pick)
    case (pick, Wait) => s.Put(t, PickAsleep(ask))
    case (pick, Return(result)) =>
      if s.pick.closed then s.(picks := s.picks + [Picked(Some(ask), result, None)]).Put(t, Idle)
      else
        s.(pick := pick, picks := s.picks + [Picked(Some(ask), result, Some(s.choicePost))], choiceShowing := None)
        .Put(t, Idle)
  }

  function AfterAnswerChoice(s: System, t: Thread, index: Option<nat>): System {
    s.(pick := ChoiceAnswered(s.pick, index), choicePosts := s.choicePosts + [Post(index, s.choiceShowing)],
       choicePost := |s.choicePosts|)
    .Put(t, PickAnswerPosted)
  }

  /** The next of the four steps of `close`. */
  function AfterClose(s: System, t: Thread): System {
    match s.At(t)
    case Idle => s.(pin := PIN_CLOSED, showing := None, cachedPosts := map[]).Put(t, ClosedPin)
    case ClosedPin => s.(pick := PICK_CLOSED, choiceShowing := None).Put(t, ClosedBoth)
    case ClosedBoth => s.(places := WakePin(s.places)).Put(t, ClosedPinNotified)
    case ClosedPinNotified => s.(places := WakePick(s.places), closes := s.closes + 1).Put(t, Idle)
    case _ => s
  }

  function Run(actions: seq<Action>): System {
    if actions == [] then START else Next(Run(actions[..|actions| - 1]), actions[|actions| - 1])
  }

  // ----- No lost wakeup -----

  /** Thread `u` has yet to wake the PIN sleepers. */
  predicate WillWakePin(s: System, u: Thread) {
    s.At(u).PinAnswerPosted? || s.At(u).ClosedPin? || s.At(u).ClosedBoth?
  }

  predicate WillWakePick(s: System, u: Thread) {
    s.At(u).PickAnswerPosted? || s.At(u).ClosedPin? || s.At(u).ClosedBoth? || s.At(u).ClosedPinNotified?
  }

  ghost predicate PinSleepIsRight(s: System) {
    (s.pin.answer == None && !s.pin.closed) || exists u :: WillWakePin(s, u)
  }

  ghost predicate PickSleepIsRight(s: System) {
    (s.pick.answer == None && !s.pick.closed) || exists u :: WillWakePick(s, u)
  }

  /** Nobody sleeps through an answer or a close. */
  ghost predicate NoLostWakeup(s: System) {
    forall t ::
      (s.At(t).PinAsleep? ==> PinSleepIsRight(s)) && (s.At(t).PickAsleep? ==> PickSleepIsRight(s))
  }

  /** A step leaves every other thread where it is, or wakes it. */
  lemma OthersPlace(s: System, a: Action, t: Thread)
    requires t != a.t
    ensures var p, q := s.At(t), Next(s, a).At(t);
            q == p || (p.PinAsleep? && q == PinAwake(p.request, p.ask)) || (p.PickAsleep? && q == PickAwake(p.choiceAsk))
  {
  }

  /** A thread falls asleep only on an open, unanswered mailbox. */
  lemma FallsAsleep(s: System, a: Action)
    ensures Next(s, a).At(a.t).PinAsleep? && !s.At(a.t).PinAsleep? ==>
              Next(s, a).pin.answer == None && !Next(s, a).pin.closed
    ensures Next(s, a).At(a.t).PickAsleep? && !s.At(a.t).PickAsleep? ==>
              Next(s, a).pick.answer == None && !Next(s, a).pick.closed
  {
  }

  /** Whoever posts an answer or closes has its `notify_all` still to come, and keeps it until nobody sleeps. */
  lemma WakesLater(s: System, a: Action)
    ensures s.pin.answer == None && !s.pin.closed && !(Next(s, a).pin.answer == None && !Next(s, a).pin.closed) ==>
              WillWakePin(Next(s, a), a.t)
    ensures s.pick.answer == None && !s.pick.closed && !(Next(s, a).pick.answer == None && !Next(s, a).pick.closed) ==>
              WillWakePick(Next(s, a), a.t)
  {
  }

  lemma WakesAll(s: System, a: Action)
    ensures WillWakePin(s, a.t) ==> WillWakePin(Next(s, a), a.t) || forall t :: !Next(s, a).At(t).PinAsleep?
    ensures WillWakePick(s, a.t) ==> WillWakePick(Next(s, a), a.t) || forall t :: !Next(s, a).At(t).PickAsleep?
  {
  }

  lemma PinSleeperStaysRight(s: System, a: Action, t: Thread)
    requires NoLostWakeup(s) && Next(s, a).At(t).PinAsleep?
    ensures PinSleepIsRight(Next(s, a))
  {
    hide Next;
    FallsAsleep(s, a);
    WakesLater(s, a);
    WakesAll(s, a);
    if t != a.t { OthersPlace(s, a, t); }
    if s.At(t).PinAsleep? && exists u :: WillWakePin(s, u) {
      var u :| WillWakePin(s, u);
      if u != a.t { OthersPlace(s, a, u); }
      assert WillWakePin(Next(s, a), u);
    }
  }

  lemma PickSleeperStaysRight(s: System, a: Action, t: Thread)
    requires NoLostWakeup(s) && Next(s, a).At(t).PickAsleep?
    ensures PickSleepIsRight(Next(s, a))
  {
    hide Next;
    FallsAsleep(s, a);
    WakesLater(s, a);
    WakesAll(s, a);
    if t != a.t { OthersPlace(s, a, t); }
    if s.At(t).PickAsleep? && exists u :: WillWakePick(s, u) {
      var u :| WillWakePick(s, u);
      if u != a.t { OthersPlace(s, a, u); }
      assert WillWakePick(Next(s, a), u);
    }
  }

  /** In every run of any number of threads: a thread asleep has no answer waiting and an open
      channel, unless some thread's `notify_all` is still to come. */
  lemma {:induction false} WakeupsAreNeverLost(actions: seq<Action>)
    ensures NoLostWakeup(Run(actions))
  {
    if actions != [] {
      var s, a := Run(actions[..|actions| - 1]), actions[|actions| - 1];
      WakeupsAreNeverLost(actions[..|actions| - 1]);
      forall t
        ensures Next(s, a).At(t).PinAsleep? ==> PinSleepIsRight(Next(s, a))
        ensures Next(s, a).At(t).PickAsleep? ==> PickSleepIsRight(Next(s, a))
      {
        if Next(s, a).At(t).PinAsleep? { PinSleeperStaysRight(s, a, t); }
        if Next(s, a).At(t).PickAsleep? { PickSleeperStaysRight(s, a, t); }
      }
    }
  }

  // ----- Closing -----

  /** How far the closing threads have come. */
  ghost predicate ClosingIsRight(s: System, t: Thread) {
    (s.At(t).ClosedPin? ==> s.pin.closed) &&
    (s.At(t).ClosedBoth? ==> s.pin.closed && s.pick.closed) &&
    (s.At(t).ClosedPinNotified? ==> s.pin.closed && s.pick.closed && NoPinSleeper(s))
  }

  ghost predicate NoPinSleeper(s: System) {
    forall t :: !s.At(t).PinAsleep?
  }

  ghost predicate NoPickSleeper(s: System) {
    forall t :: !s.At(t).PickAsleep?
  }

  /** A closed mailbox caches no PIN and shows no question, and once `close` has returned nobody is left asleep. */
  ghost predicate ClosedForGood(s: System) {
    (s.pin.closed ==> s.pin.cached == map[] && s.pin.asking == None) &&
    (s.pick.closed ==> s.pick.asking == None) &&
    (forall t :: ClosingIsRight(s, t)) &&
    (0 < s.closes ==> s.pin.closed && s.pick.closed && NoPinSleeper(s) && NoPickSleeper(s))
  }

  lemma ClosedMailboxLetsNobodySleep(s: System, a: Action)
    ensures s.pin.closed && NoPinSleeper(s) ==> NoPinSleeper(Next(s, a))
    ensures s.pick.closed && NoPickSleeper(s) ==> NoPickSleeper(Next(s, a))
  {
    forall t
      ensures s.pin.closed && !s.At(t).PinAsleep? ==> !Next(s, a).At(t).PinAsleep?
      ensures s.pick.closed && !s.At(t).PickAsleep? ==> !Next(s, a).At(t).PickAsleep?
    {
    }
  }

  lemma StaysClosed(s: System, a: Action)
    ensures s.pin.closed ==> Next(s, a).pin.closed
    ensures s.pick.closed ==> Next(s, a).pick.closed
  {
  }

  /** The closing thread itself. */
  lemma ClosesOneMore(s: System, a: Action)
    requires ClosingIsRight(s, a.t)
    ensures ClosingIsRight(Next(s, a), a.t)
  {
    ClosedMailboxLetsNobodySleep(s, a);
    if s.At(a.t).ClosedBoth? && a.Close? {
      forall u
        ensures !Next(s, a).At(u).PinAsleep?
      {
      }
    }
  }

  lemma ClosingStaysRight(s: System, a: Action, t: Thread)
    requires ClosingIsRight(s, t)
    ensures ClosingIsRight(Next(s, a), t)
  {
    if t == a.t {
      ClosesOneMore(s, a);
    } else {
      hide Next;
      OthersPlace(s, a, t);
      StaysClosed(s, a);
      ClosedMailboxLetsNobodySleep(s, a);
    }
  }

  lemma StepKeepsClosed(s: System, a: Action)
    requires ClosedForGood(s)
    ensures ClosedForGood(Next(s, a))
    ensures s.closes <= Next(s, a).closes
  {
    ClosedMailboxLetsNobodySleep(s, a);
    forall t
      ensures ClosingIsRight(Next(s, a), t)
    {
      ClosingStaysRight(s, a, t);
    }
    assert ClosingIsRight(s, a.t);
  }

  lemma {:induction false} CloseIsTerminal(actions: seq<Action>)
    ensures ClosedForGood(Run(actions))
  {
    if actions != [] {
      CloseIsTerminal(actions[..|actions| - 1]);
      StepKeepsClosed(Run(actions[..|actions| - 1]), actions[|actions| - 1]);
    }
  }

  lemma RunLast(actions: seq<Action>)
    requires actions != []
    ensures Run(actions) == Next(Run(actions[..|actions| - 1]), actions[|actions| - 1])
  {
    hide Next;
  }

  lemma Continued(before: seq<Action>, after: seq<Action>)
    requires after != []
    ensures Run(before + after) == Next(Run(before + after[..|after| - 1]), after[|after| - 1])
  {
    hide Next, Run;
    RunLast(before + after);
    assert (before + after)[..|before + after| - 1] == before + after[..|after| - 1];
  }

  ghost predicate OnlyNone<T>(was: seq<T>, now: seq<T>, result: T -> bool) {
    was <= now && forall i | |was| <= i < |now| :: result(now[i])
  }

  const NO_PIN := (r: Returned) => r.result == None
  const NO_CHOICE := (r: Picked) => r.result == None

  lemma StepAfterClose(s: System, a: Action)
    requires ClosedForGood(s) && 0 < s.closes
    ensures OnlyNone(s.pins, Next(s, a).pins, NO_PIN) && OnlyNone(s.picks, Next(s, a).picks, NO_CHOICE)
    ensures s.At(a.t).PinAwake? && a.ResumePin? ==> Next(s, a).At(a.t).Idle? && |Next(s, a).pins| == |s.pins| + 1
    ensures s.At(a.t).PickAwake? && a.ResumeChoice? ==> Next(s, a).At(a.t).Idle? && |Next(s, a).picks| == |s.picks| + 1
    ensures s.At(a.t).Idle? && a.RequestPin? ==> Next(s, a).At(a.t).Idle? && |Next(s, a).pins| == |s.pins| + 1
    ensures s.At(a.t).Idle? && a.RequestChoice? ==> Next(s, a).At(a.t).Idle? && |Next(s, a).picks| == |s.picks| + 1
  {
  }

  /** Once `close` has returned: no PIN is cached, no question shows, nobody sleeps, and whatever answers
      still arrive, every call that ends from then on ends in `None`. */
  lemma {:induction false} NothingAfterClose(before: seq<Action>, after: seq<Action>)
    requires 0 < Run(before).closes
    ensures var s, n := Run(before), Run(before + after);
            0 < n.closes && n.pin.cached == map[] && n.pin.asking == None && n.pick.asking == None
            && NoPinSleeper(n) && NoPickSleeper(n)
            && OnlyNone(s.pins, n.pins, NO_PIN) && OnlyNone(s.picks, n.picks, NO_CHOICE)
  {
    hide Next, ClosingIsRight;
    CloseIsTerminal(before + after);
    if after == [] {
      assert before + after == before;
    } else {
      NothingAfterClose(before, after[..|after| - 1]);
      Continued(before, after);
      CloseIsTerminal(before + after[..|after| - 1]);
      StepKeepsClosed(Run(before + after[..|after| - 1]), after[|after| - 1]);
      StepAfterClose(Run(before + after[..|after| - 1]), after[|after| - 1]);
    }
  }

  // ----- A PIN posted to a closed mailbox -----

  /** No PIN is left lying around, neither in the cache nor as an answer nobody has taken. */
  predicate HoldsNoPin(s: System) {
    s.pin.cached == map[] && (s.pin.answer == None || s.pin.answer == Some(None))
  }

  /** `answer_pin` takes effect, whether or not the mailbox is closed. */
  predicate PostsPin(s: System, a: Action) {
    a.AnswerPin? && s.At(a.t).Idle?
  }

  /** The PIN half of a `close`. */
  predicate WipesPin(s: System, a: Action) {
    a.Close? && s.At(a.t).Idle?
  }

  /** Action `k` posted a PIN, and nothing was posted or wiped after it. */
  ghost predicate LeftPin(actions: seq<Action>, k: nat) {
    k < |actions| && PostsPin(Run(actions[..k]), actions[k]) && actions[k].value.Some? &&
    forall j | k < j < |actions| :: !PostsPin(Run(actions[..j]), actions[j]) && !WipesPin(Run(actions[..j]), actions[j])
  }

  lemma ClosedMailboxStep(s: System, a: Action)
    requires ClosedForGood(s) && Next(s, a).pin.closed
    ensures var n := Next(s, a);
            if PostsPin(s, a) then n.pin == s.pin.(answer := Some(a.value))
            else if WipesPin(s, a) then n.pin == PIN_CLOSED
            else n.pin == s.pin
  {
  }

  lemma LeftOneMore(actions: seq<Action>, k: nat)
    requires actions != []
    ensures var n := |actions| - 1;
            var s, a := Run(actions[..n]), actions[n];
            LeftPin(actions, k) <==>
              if k == n then PostsPin(s, a) && a.value.Some?
              else LeftPin(actions[..n], k) && !PostsPin(s, a) && !WipesPin(s, a)
  {
    hide Next, Run, PostsPin, WipesPin;
    var n := |actions| - 1;
    forall j | 0 <= j < n
      ensures actions[..n][..j] == actions[..j] && actions[..n][j] == actions[j]
    {
    }
    if k < n {
      assert LeftPin(actions, k) ==> !PostsPin(Run(actions[..n]), actions[n]) && !WipesPin(Run(actions[..n]), actions[n]);
      if LeftPin(actions, k) {
        forall j | k < j < n
          ensures !PostsPin(Run(actions[..n][..j]), actions[..n][j]) && !WipesPin(Run(actions[..n][..j]), actions[..n][j])
        {
        }
      }
      if LeftPin(actions[..n], k) && !PostsPin(Run(actions[..n]), actions[n]) && !WipesPin(Run(actions[..n]), actions[n]) {
        forall j | k < j < |actions|
          ensures !PostsPin(Run(actions[..j]), actions[j]) && !WipesPin(Run(actions[..j]), actions[j])
        {
          if j < n { assert !PostsPin(Run(actions[..n][..j]), actions[..n][j]); }
        }
      }
    }
  }

  /** In every run that has closed the mailbox it holds no PIN if and only if no PIN was posted after the last
      `close` began, but for those another post has replaced; and if there is one, it is the one held. */
  lemma {:induction false} ClosedMailboxKeeps(actions: seq<Action>)
    requires Run(actions).pin.closed
    ensures HoldsNoPin(Run(actions)) <==> forall k: nat :: !LeftPin(actions, k)
    ensures forall k: nat | LeftPin(actions, k) :: Run(actions).pin.answer == Some(actions[k].value)
  {
    hide Next, LeftPin, Run;
    if actions == [] {
      RunNothing();
    } else {
      var n := |actions| - 1;
      var s, a := Run(actions[..n]), actions[n];
      RunLast(actions);
      CloseIsTerminal(actions[..n]);
      ClosedMailboxStep(s, a);
      forall k: nat
        ensures LeftPin(actions, k) <==>
                  if k == n then PostsPin(s, a) && a.value.Some?
                  else LeftPin(actions[..n], k) && !PostsPin(s, a) && !WipesPin(s, a)
      {
        LeftOneMore(actions, k);
      }
      if s.pin.closed {
        ClosedMailboxKeeps(actions[..n]);
        LeftAreActions(actions[..n]);
      }
      assert PostsPin(s, a) && a.value.Some? ==> LeftPin(actions, n);
    }
  }

  lemma RunNothing()
    ensures Run([]) == START
  {
  }

  lemma LeftAreActions(actions: seq<Action>)
    ensures forall k: nat | LeftPin(actions, k) :: k < |actions|
  {
  }

  /** The purpose of `close` is missed by one late answer: it is kept, though no call will ever take it. */
  lemma PinPostedAfterClose(p: Pin)
    ensures var closed := [Close(0), Close(0), Close(0), Close(0)];
            Run(closed).closes == 1 && HoldsNoPin(Run(closed)) &&
            Run(closed + [AnswerPin(0, Some(p))]).pin.answer == Some(Some(p)) && !HoldsNoPin(Run(closed + [AnswerPin(0, Some(p))]))
  {
    var s1 := Next(START, Close(0));
    assert s1.At(0) == ClosedPin;
    var s2 := Next(s1, Close(0));
    assert s2.At(0) == ClosedBoth;
    var s3 := Next(s2, Close(0));
    assert s3.At(0) == ClosedPinNotified;
    var s4 := Next(s3, Close(0));
    assert s4.At(0).Idle?;
    hide Next, Run;
    RunNothing();
    Then([], Close(0));
    ThreeMore([] + [Close(0)], Close(0), Close(0), Close(0));
    var closed := [Close(0), Close(0), Close(0), Close(0)];
    assert [] + [Close(0)] + [Close(0), Close(0), Close(0)] == closed;
    Then(closed, AnswerPin(0, Some(p)));
    PostedToClosed(s4, p);
  }

  lemma PostedToClosed(s: System, p: Pin)
    requires s.At(0).Idle?
    ensures Next(s, AnswerPin(0, Some(p))).pin.answer == Some(Some(p))
  {
  }

  // ----- Whose PIN it is -----

  predicate PinBlocked(s: System, t: Thread) {
    s.At(t).PinAsleep? || s.At(t).PinAwake?
  }

  /** A question is about to be asked while another call is still blocked on its own. */
  ghost predicate Overlaps(s: System, a: Action) {
    a.RequestPin? && s.At(a.t).Idle? && PinRequested(s.pin, a.request).1.Wait? && exists t :: PinBlocked(s, t)
  }

  /** One ceremony at a time. */
  ghost predicate Exclusive(actions: seq<Action>) {
    forall k | 0 <= k < |actions| :: !Overlaps(Run(actions[..k]), actions[k])
  }

  /** Post `k` brought PIN `p` while a question for `device` was showing. */
  ghost predicate TypedFor(s: System, device: Device, p: Pin, k: nat) {
    k < |s.posts| && s.posts[k].value == Some(p) && s.posts[k].showing.Some? &&
    s.posts[k].showing.value < |s.asks| && s.asks[s.posts[k].showing.value].device == device
  }

  /** A PIN returned was typed for the device it is returned for; a call that blocked returns what was
      posted to its very own question. */
  ghost predicate Own(s: System, r: Returned) {
    (r.result.Some? ==> r.post.Some? && TypedFor(s, r.request.device, r.result.value, r.post.value)) &&
    (r.ask.Some? && r.post.Some? ==> r.post.value < |s.posts| && s.posts[r.post.value] == Post(r.result, r.ask))
  }

  /** What the mailbox shows, and where its answer comes from. */
  ghost predicate MailboxIsRight(s: System) {
    (if s.showing.Some? then s.showing.value < |s.asks| && s.pin.asking == Some(s.asks[s.showing.value])
     else s.pin.asking == None) &&
    (!s.pin.closed && s.pin.answer.Some? && s.showing.Some? ==>
       s.answerPost < |s.posts| && s.posts[s.answerPost] == Post(s.pin.answer.value, s.showing))
  }

  ghost predicate CacheIsRight(s: System) {
    forall d | d in s.pin.cached :: d in s.cachedPosts && TypedFor(s, d, s.pin.cached[d], s.cachedPosts[d])
  }

  /** A blocked call waits on the question that is showing, and it is the only one. */
  ghost predicate BlockedIsRight(s: System, t: Thread) {
    PinBlocked(s, t) ==>
      s.At(t).ask < |s.asks| && s.asks[s.At(t).ask] == s.At(t).request &&
      (!s.pin.closed ==> s.showing == Some(s.At(t).ask)) &&
      forall u | PinBlocked(s, u) :: u == t
  }

  ghost predicate Isolated(s: System) {
    MailboxIsRight(s) && CacheIsRight(s) && (forall t :: BlockedIsRight(s, t)) && forall r | r in s.pins :: Own(s, r)
  }

  /** What was recorded stays. */
  lemma RecordsGrow(s: System, a: Action)
    ensures s.asks <= Next(s, a).asks && s.posts <= Next(s, a).posts
  {
  }

  lemma StillOwn(s: System, n: System, r: Returned)
    requires s.asks <= n.asks && s.posts <= n.posts && Own(s, r)
    ensures Own(n, r)
  {
  }

  lemma MailboxStaysRight(s: System, a: Action)
    requires MailboxIsRight(s)
    ensures MailboxIsRight(Next(s, a))
  {
  }

  /** Only a question newly asked blocks a thread that was not blocked. */
  lemma WhoIsBlocked(s: System, a: Action, t: Thread)
    requires PinBlocked(Next(s, a), t)
    ensures PinBlocked(s, t) ||
            (a.RequestPin? && t == a.t && s.At(t).Idle? && PinRequested(s.pin, a.request).1.Wait?)
    ensures PinBlocked(s, t) ==> Next(s, a).At(t).ask == s.At(t).ask && Next(s, a).At(t).request == s.At(t).request
  {
  }

  /** What is showing changes by a new question, by the end of a blocked call, and by `close`. */
  lemma WhatIsShowing(s: System, a: Action)
    ensures Next(s, a).showing != s.showing ==>
              (a.RequestPin? && s.At(a.t).Idle? && PinRequested(s.pin, a.request).1.Wait?) ||
              (PinBlocked(s, a.t) && !PinBlocked(Next(s, a), a.t)) || Next(s, a).pin.closed
    ensures s.pin.closed ==> Next(s, a).pin.closed
  {
  }

  lemma BlockedStaysRight(s: System, a: Action, t: Thread)
    requires (forall t :: BlockedIsRight(s, t)) && !Overlaps(s, a)
    ensures BlockedIsRight(Next(s, a), t)
  {
    if PinBlocked(Next(s, a), t) {
      RecordsGrow(s, a);
      WhoIsBlocked(s, a, t);
      WhatIsShowing(s, a);
      assert BlockedIsRight(s, t);
      forall u | PinBlocked(Next(s, a), u)
        ensures u == t
      {
        WhoIsBlocked(s, a, u);
      }
      if PinBlocked(s, t) {
        hide Next;
      } else {
        NewQuestionShows(s, a);
      }
    }
  }

  lemma NewQuestionShows(s: System, a: Action)
    requires a.RequestPin? && s.At(a.t).Idle? && PinRequested(s.pin, a.request).1.Wait?
    ensures var n := Next(s, a);
            PinBlocked(n, a.t) && n.At(a.t).ask < |n.asks| && n.asks[n.At(a.t).ask] == n.At(a.t).request
            && n.showing == Some(n.At(a.t).ask)
  {
  }

  /** A cache entry is as it was, or a call for its device has just taken the answer waiting. */
  lemma WhereAnEntryComesFrom(s: System, a: Action, d: Device)
    requires d in Next(s, a).pin.cached
    ensures var n := Next(s, a);
            || (d in s.pin.cached && s.pin.cached[d] == n.pin.cached[d]
                && (d in s.cachedPosts ==> d in n.cachedPosts && n.cachedPosts[d] == s.cachedPosts[d]))
            || (PinBlocked(s, a.t) && !s.pin.closed && s.At(a.t).request.device == d
                && s.pin.answer == Some(Some(n.pin.cached[d]))
                && d in n.cachedPosts && n.cachedPosts[d] == s.answerPost)
  {
  }

  lemma CacheStaysRight(s: System, a: Action)
    requires Isolated(s)
    ensures CacheIsRight(Next(s, a))
  {
    hide Next;
    var n := Next(s, a);
    RecordsGrow(s, a);
    forall d | d in n.pin.cached
      ensures d in n.cachedPosts && TypedFor(n, d, n.pin.cached[d], n.cachedPosts[d])
    {
      WhereAnEntryComesFrom(s, a, d);
      assert BlockedIsRight(s, a.t);
    }
  }

  lemma ReturnsStayOwn(s: System, a: Action, r: Returned)
    requires Isolated(s) && r in Next(s, a).pins
    ensures Own(Next(s, a), r)
  {
    RecordsGrow(s, a);
    if r in s.pins {
      StillOwn(s, Next(s, a), r);
    } else {
      assert BlockedIsRight(s, a.t);
    }
  }

  /** With one ceremony at a time, in every run: each PIN a call returns was typed while the question of
      that device was showing, and a call that blocked gets the answer to its own question. */
  lemma {:induction false} PinIsolation(actions: seq<Action>)
    requires Exclusive(actions)
    ensures Isolated(Run(actions))
  {
    if actions != [] {
      var most, a := actions[..|actions| - 1], actions[|actions| - 1];
      forall k | 0 <= k < |most|
        ensures !Overlaps(Run(most[..k]), most[k])
      {
        assert most[..k] == actions[..k];
      }
      PinIsolation(most);
      var s := Run(most);
      assert actions[..|most|] == most;
      MailboxStaysRight(s, a);
      CacheStaysRight(s, a);
      forall t ensures BlockedIsRight(Next(s, a), t) { BlockedStaysRight(s, a, t); }
      forall r | r in Next(s, a).pins ensures Own(Next(s, a), r) { ReturnsStayOwn(s, a, r); }
    }
  }

  /** And only then. In whatever state a question is asked while another call is blocked, the run can go on
      so that the blocked call returns, as its own, a PIN posted while the other question was showing. */
  lemma OverlapBreaksIsolation(s: System, t: Thread, other: Thread, screen: Thread, request: PinRequest, p: Pin)
    requires Overlaps(s, RequestPin(other, request)) && PinBlocked(s, t) && s.At(screen).Idle? && screen != other
    requires s.At(t).ask < |s.asks|
    ensures var asked := Next(s, RequestPin(other, request));
            var n := Next(Next(Next(asked, AnswerPin(screen, Some(p))), NotifyPin(screen)), ResumePin(t));
            n.pins == s.pins + [Returned(s.At(t).request, Some(s.At(t).ask), Some(p), Some(|s.posts|))]
            && n.posts[|s.posts|] == Post(Some(p), Some(|s.asks|)) && n.asks[|s.asks|] == request
            && !Own(n, n.pins[|s.pins|])
            && (request.device != s.At(t).request.device ==> !TypedFor(n, s.At(t).request.device, p, |s.posts|))
  {
    var s1 := Next(s, RequestPin(other, request));
    assert s1.At(t) == s.At(t) && s1.At(screen).Idle?;
    var s2 := Next(s1, AnswerPin(screen, Some(p)));
    assert s2.At(t) == s.At(t);
    var s3 := Next(s2, NotifyPin(screen));
    assert s3.At(t) == PinAwake(s.At(t).request, s.At(t).ask);
    assert s3.pin.answer == Some(Some(p)) && !s3.pin.closed;
  }

  /** The answer the screen posts is what the blocked call returns, and the question is gone. */
  lemma AnswerIsDelivered(s: System, t: Thread, screen: Thread, value: Option<Pin>)
    requires Isolated(s) && PinBlocked(s, t) && !s.pin.closed && s.At(screen).Idle?
    ensures var n := Next(Next(Next(s, AnswerPin(screen, value)), NotifyPin(screen)), ResumePin(t));
            n.At(t).Idle? && n.pin.asking == None
            && n.pins == s.pins + [Returned(s.At(t).request, Some(s.At(t).ask), value, Some(|s.posts|))]
            && n.posts[|s.posts|] == Post(value, Some(s.At(t).ask))
  {
    assert BlockedIsRight(s, t);
    var s1 := Next(s, AnswerPin(screen, value));
    assert s1.At(t) == s.At(t);
    var s2 := Next(s1, NotifyPin(screen));
    assert s2.At(t) == PinAwake(s.At(t).request, s.At(t).ask) && s2.pin.answer == Some(value);
  }

  predicate PickBlocked(s: System, t: Thread) {
    s.At(t).PickAsleep? || s.At(t).PickAwake?
  }

  /** The same for a wallet: the screen's choice is what the blocked call returns. */
  lemma ChoiceIsDelivered(s: System, t: Thread, screen: Thread, index: Option<nat>)
    requires PickBlocked(s, t) && !s.pick.closed && s.At(screen).Idle?
    ensures var n := Next(Next(Next(s, AnswerChoice(screen, index)), NotifyPick(screen)), ResumeChoice(t));
            n.At(t).Idle? && n.pick.asking == None
            && n.picks == s.picks + [Picked(Some(s.At(t).choiceAsk), index, Some(|s.choicePosts|))]
            && n.choicePosts == s.choicePosts + [Post(index, s.choiceShowing)]
  {
    var s1 := Next(s, AnswerChoice(screen, index));
    assert s1.At(t) == s.At(t);
    var s2 := Next(s1, NotifyPick(screen));
    assert s2.At(t) == PickAwake(s.At(t).choiceAsk) && s2.pick.answer == Some(index);
  }

  /** Whatever was posted before a wallet is asked for, and however often the thread is stirred: until
      somebody answers or closes from then on, the call does not return. */
  lemma {:induction false} NoChoiceNoReturn(before: seq<Action>, t: Thread, choices: seq<string>, after: seq<Action>)
    requires Run(before).At(t).Idle? && !Run(before).pick.closed
    requires forall a | a in after :: !a.AnswerChoice? && !a.Close?
    ensures var n := Run((before + [RequestChoice(t, choices)]) + after);
            PickBlocked(n, t) && n.pick.answer == None && !n.pick.closed
  {
    var asked := before + [RequestChoice(t, choices)];
    if after == [] {
      assert asked + after == asked && asked[..|asked| - 1] == before;
      RunLast(asked);
    } else {
      var most, a := after[..|after| - 1], after[|after| - 1];
      assert a in after && forall x | x in most :: x in after;
      NoChoiceNoReturn(before, t, choices, most);
      Continued(asked, after);
      UnansweredStep(Run(asked + most), t, a);
    }
  }

  lemma UnansweredStep(s: System, t: Thread, a: Action)
    requires PickBlocked(s, t) && s.pick.answer == None && !s.pick.closed && !a.AnswerChoice? && !a.Close?
    ensures PickBlocked(Next(s, a), t) && Next(s, a).pick.answer == None && !Next(s, a).pick.closed
  {
  }

  /** A refused attempt asks again, forgets that device's PIN, and no step but `close` touches another's. */
  lemma OneDeviceAtATime(s: System, a: Action, d: Device)
    ensures a.RequestPin? && a.request.retry && s.At(a.t).Idle? && !s.pin.closed ==>
              Next(s, a).At(a.t).PinAsleep? && Next(s, a).pin.asking == Some(a.request) &&
              a.request.device !in Next(s, a).pin.cached
    ensures !a.Close? && !(a.RequestPin? && a.request.device == d)
            && !(PinBlocked(s, a.t) && s.At(a.t).request.device == d) ==>
              (d in Next(s, a).pin.cached <==> d in s.pin.cached) &&
              (d in s.pin.cached ==> Next(s, a).pin.cached[d] == s.pin.cached[d])
  {
  }

  // ----- When a PIN is used again -----

  /** The step from `s` to `n` ends a call that waited for `device`, on the open channel. */
  predicate Told(s: System, n: System, device: Device) {
    |s.pins| < |n.pins| &&
    var r := n.pins[|n.pins| - 1];
    r.request.device == device && r.ask.Some? && r.post.Some?
  }

  /** The key has refused the PIN of `device`, and the open channel is told. */
  predicate Refused(s: System, a: Action, device: Device) {
    a.RequestPin? && a.request.retry && a.request.device == device && s.At(a.t).Idle? && !s.pin.closed
  }

  /** What the last call that waited for `device` was told, unless it has been refused or the channel closed since. */
  function LastTold(actions: seq<Action>, device: Device): Option<Pin> {
    if actions == [] then None
    else
      var most, a := actions[..|actions| - 1], actions[|actions| - 1];
      var s, n := Run(most), Run(actions);
      if WipesPin(s, a) || Refused(s, a, device) then None
      else if Told(s, n, device) then n.pins[|n.pins| - 1].result
      else LastTold(most, device)
  }

  function Cached(s: System, device: Device): Option<Pin> {
    if device in s.pin.cached then Some(s.pin.cached[device]) else None
  }

  lemma CacheStep(s: System, a: Action, device: Device)
    ensures var n := Next(s, a);
            Cached(n, device) ==
              if WipesPin(s, a) || Refused(s, a, device) then None
              else if Told(s, n, device) then n.pins[|n.pins| - 1].result
              else Cached(s, device)
  {
  }

  lemma {:induction false} CacheIsWhatWasLastTold(actions: seq<Action>, device: Device)
    ensures Cached(Run(actions), device) == LastTold(actions, device)
  {
    hide Next, Run, Cached, Told, Refused, WipesPin;
    if actions == [] {
      NothingIsCached(device);
    } else {
      CacheIsWhatWasLastTold(actions[..|actions| - 1], device);
      RunLast(actions);
      CacheStep(Run(actions[..|actions| - 1]), actions[|actions| - 1], device);
    }
  }

  lemma NothingIsCached(device: Device)
    ensures Cached(Run([]), device) == None
  {
  }

  /** Over every run, on the open channel: the PIN the last call that waited for this device was told is returned at
      once, and nobody is asked. A person is asked if and only if there is none, it was refused since, or this very
      request says so. */
  lemma UsedAgainExactlyWhenTold(actions: seq<Action>, t: Thread, request: PinRequest)
    requires Run(actions).At(t).Idle? && !Run(actions).pin.closed
    ensures var s, n, last := Run(actions), Run(actions + [RequestPin(t, request)]), LastTold(actions, request.device);
            if !request.retry && last.Some? then
              n.At(t).Idle? && n.pin == s.pin && n.asks == s.asks && |n.pins| == |s.pins| + 1 && n.pins[..|s.pins|] == s.pins
              && n.pins[|s.pins|].(post := None) == Returned(request, None, last, None)
            else
              n.At(t) == PinAsleep(request, |s.asks|) && n.asks == s.asks + [request] && n.pins == s.pins
              && n.pin.asking == Some(request) && n.pin.answer == None
  {
    hide LastTold, Run;
    CacheIsWhatWasLastTold(actions, request.device);
    Then(actions, RequestPin(t, request));
  }

  // ----- One answer, one call -----

  /** Each call that waited on the open channel returns what was posted, and no two return the same post. */
  ghost predicate TakenOnce(s: System) {
    (forall r | r in s.pins && r.ask.Some? && r.post.Some? ::
       r.post.value < |s.posts| && r.result == s.posts[r.post.value].value) &&
    forall i, j | 0 <= i < j < |s.pins| && s.pins[i].ask.Some? && s.pins[j].ask.Some? && s.pins[i].post.Some? ::
      s.pins[i].post != s.pins[j].post
  }

  ghost predicate ChoicesTakenOnce(s: System) {
    (forall r | r in s.picks && r.post.Some? ::
       r.post.value < |s.choicePosts| && r.result == s.choicePosts[r.post.value].value) &&
    forall i, j | 0 <= i < j < |s.picks| && s.picks[i].post.Some? :: s.picks[i].post != s.picks[j].post
  }

  /** The answer waiting is the one posted last, and nobody has returned it. */
  ghost predicate NotTakenYet(s: System) {
    !s.pin.closed && s.pin.answer.Some? ==>
      s.answerPost < |s.posts| && s.posts[s.answerPost].value == s.pin.answer.value &&
      forall r | r in s.pins && r.ask.Some? :: r.post != Some(s.answerPost)
  }

  ghost predicate ChoiceNotTakenYet(s: System) {
    !s.pick.closed && s.pick.answer.Some? ==>
      s.choicePost < |s.choicePosts| && s.choicePosts[s.choicePost].value == s.pick.answer.value &&
      forall r | r in s.picks :: r.post != Some(s.choicePost)
  }

  /** What a step posts and takes. */
  lemma TakesTheAnswer(s: System, a: Action)
    ensures var n := Next(s, a);
            && s.posts <= n.posts && s.pins <= n.pins
            && |n.pins| <= |s.pins| + 1
            && (|s.pins| < |n.pins| && n.pins[|s.pins|].ask.Some? && n.pins[|s.pins|].post.Some? ==>
                  !s.pin.closed && s.pin.answer == Some(n.pins[|s.pins|].result)
                  && n.pins[|s.pins|].post == Some(s.answerPost) && n.pin.answer == None)
            && (!n.pin.closed && n.pin.answer.Some? ==>
                  || (!s.pin.closed && n.pin.answer == s.pin.answer && n.answerPost == s.answerPost)
                  || (n.posts == s.posts + [Post(n.pin.answer.value, s.showing)] && n.answerPost == |s.posts| && n.pins == s.pins))
  {
  }

  lemma TakesTheChoice(s: System, a: Action)
    ensures var n := Next(s, a);
            && s.choicePosts <= n.choicePosts && s.picks <= n.picks
            && |n.picks| <= |s.picks| + 1
            && (|s.picks| < |n.picks| && n.picks[|s.picks|].post.Some? ==>
                  !s.pick.closed && s.pick.answer == Some(n.picks[|s.picks|].result)
                  && n.picks[|s.picks|].post == Some(s.choicePost) && n.pick.answer == None)
            && (!n.pick.closed && n.pick.answer.Some? ==>
                  || (!s.pick.closed && n.pick.answer == s.pick.answer && n.choicePost == s.choicePost)
                  || (n.choicePosts == s.choicePosts + [Post(n.pick.answer.value, s.choiceShowing)]
                      && n.choicePost == |s.choicePosts| && n.picks == s.picks))
  {
  }

  lemma StaysTakenOnce(s: System, a: Action)
    requires TakenOnce(s) && NotTakenYet(s)
    ensures TakenOnce(Next(s, a)) && NotTakenYet(Next(s, a))
  {
    hide Next;
    TakesTheAnswer(s, a);
    assert forall r | r in Next(s, a).pins :: r in s.pins || r == Next(s, a).pins[|s.pins|];
  }

  lemma ChoicesStayTakenOnce(s: System, a: Action)
    requires ChoicesTakenOnce(s) && ChoiceNotTakenYet(s)
    ensures ChoicesTakenOnce(Next(s, a)) && ChoiceNotTakenYet(Next(s, a))
  {
    hide Next;
    TakesTheChoice(s, a);
    assert forall r | r in Next(s, a).picks :: r in s.picks || r == Next(s, a).picks[|s.picks|];
  }

  /** In every run, however many ask at a time. */
  lemma {:induction false} EachAnswerIsTakenOnce(actions: seq<Action>)
    ensures TakenOnce(Run(actions)) && ChoicesTakenOnce(Run(actions))
    ensures NotTakenYet(Run(actions)) && ChoiceNotTakenYet(Run(actions))
  {
    if actions != [] {
      hide Next, TakenOnce, NotTakenYet, ChoicesTakenOnce, ChoiceNotTakenYet;
      EachAnswerIsTakenOnce(actions[..|actions| - 1]);
      StaysTakenOnce(Run(actions[..|actions| - 1]), actions[|actions| - 1]);
      ChoicesStayTakenOnce(Run(actions[..|actions| - 1]), actions[|actions| - 1]);
    }
  }

  // ----- Exactly when -----

  /** A blocked call waits on a question that was asked. */
  ghost predicate AsksAreRight(s: System) {
    forall t ::
      (PinBlocked(s, t) ==> s.At(t).ask < |s.asks|) && (PickBlocked(s, t) ==> s.At(t).choiceAsk < |s.choiceAsks|)
  }

  lemma OwnAskIsRight(s: System, a: Action)
    requires AsksAreRight(s)
    ensures var n := Next(s, a);
            (PinBlocked(n, a.t) ==> n.At(a.t).ask < |n.asks|) && (PickBlocked(n, a.t) ==> n.At(a.t).choiceAsk < |n.choiceAsks|)
            && |s.asks| <= |n.asks| && |s.choiceAsks| <= |n.choiceAsks|
  {
    assert PinBlocked(s, a.t) ==> s.At(a.t).ask < |s.asks|;
    assert PickBlocked(s, a.t) ==> s.At(a.t).choiceAsk < |s.choiceAsks|;
  }

  lemma AsksStayRight(s: System, a: Action)
    requires AsksAreRight(s)
    ensures AsksAreRight(Next(s, a))
  {
    hide Next;
    OwnAskIsRight(s, a);
    forall t | t != a.t
      ensures PinBlocked(Next(s, a), t) ==> Next(s, a).At(t).ask < |Next(s, a).asks|
      ensures PickBlocked(Next(s, a), t) ==> Next(s, a).At(t).choiceAsk < |Next(s, a).choiceAsks|
    {
      OthersPlace(s, a, t);
      assert PinBlocked(s, t) ==> s.At(t).ask < |s.asks|;
      assert PickBlocked(s, t) ==> s.At(t).choiceAsk < |s.choiceAsks|;
    }
  }

  lemma {:induction false} AsksAreAlwaysRight(actions: seq<Action>)
    ensures AsksAreRight(Run(actions))
  {
    hide Next;
    if actions != [] {
      AsksAreAlwaysRight(actions[..|actions| - 1]);
      AsksStayRight(Run(actions[..|actions| - 1]), actions[|actions| - 1]);
    }
  }

  lemma Then(actions: seq<Action>, a: Action)
    ensures Run(actions + [a]) == Next(Run(actions), a)
  {
    hide Next;
    assert (actions + [a])[..|actions + [a]| - 1] == actions;
  }

  lemma ThreeMore(actions: seq<Action>, a: Action, b: Action, c: Action)
    ensures Run(actions + [a, b, c]) == Next(Next(Next(Run(actions), a), b), c)
  {
    hide Next, Run;
    Then(actions, a);
    Then(actions + [a], b);
    Then(actions + [a] + [b], c);
    assert actions + [a] + [b] + [c] == actions + [a, b, c];
  }

  /** A thread that has done nothing yet. */
  lemma Newcomer(s: System, busy: Thread) returns (t: Thread)
    ensures s.At(t).Idle? && t != busy
  {
    t := Bound(s.places.Keys + {busy});
  }

  ghost predicate NothingAsked(actions: seq<Action>) {
    forall a | a in actions :: !a.RequestPin? && !a.RequestChoice?
  }

  ghost predicate OwnPins(s: System) {
    forall r | r in s.pins :: Own(s, r)
  }

  /** However a prefix of the run goes on without another question, every PIN returned is the caller's own. */
  ghost predicate OwnPinsHoweverItGoesOn(actions: seq<Action>) {
    forall k, more | 0 <= k <= |actions| && NothingAsked(more) :: OwnPins(Run(actions[..k] + more))
  }

  lemma StaysExclusive(actions: seq<Action>, k: nat, more: seq<Action>)
    requires k <= |actions| && NothingAsked(more)
    ensures Exclusive(actions) ==> Exclusive(actions[..k] + more)
    ensures PickExclusive(actions) ==> PickExclusive(actions[..k] + more)
  {
    hide Next, Run;
    var all := actions[..k] + more;
    forall j | 0 <= j < |all|
      ensures if j < k then all[..j] == actions[..j] && all[j] == actions[j]
              else !all[j].RequestPin? && !all[j].RequestChoice?
    {
      if k <= j { assert all[j] in more; }
    }
  }

  /** Each prefix of a run returns only the callers' own PINs, however it goes on, if and only if the run has
      one ceremony at a time. */
  lemma PinIsolationIsExact(actions: seq<Action>)
    ensures OwnPinsHoweverItGoesOn(actions) <==> Exclusive(actions)
  {
    hide Next, Run, OwnPins;
    if Exclusive(actions) {
      forall k, more | 0 <= k <= |actions| && NothingAsked(more)
        ensures OwnPins(Run(actions[..k] + more))
      {
        StaysExclusive(actions, k, more);
        PinIsolation(actions[..k] + more);
        IsolatedMeansOwn(Run(actions[..k] + more));
      }
    }
    if k :| 0 <= k < |actions| && Overlaps(Run(actions[..k]), actions[k]) {
      var s, a := Run(actions[..k]), actions[k];
      var t :| PinBlocked(s, t);
      var screen := Newcomer(s, a.t);
      AsksAreAlwaysRight(actions[..k]);
      assert PinBlocked(s, t) && a == RequestPin(a.t, a.request);
      OverlapBreaksIsolation(s, t, a.t, screen, a.request, "");
      Then(actions[..k], a);
      assert actions[..k] + [a] == actions[..k + 1];
      var more := [AnswerPin(screen, Some("")), NotifyPin(screen), ResumePin(t)];
      ThreeMore(actions[..k + 1], more[0], more[1], more[2]);
      NotOwn(Run(actions[..k + 1] + more), |s.pins|);
      assert 0 <= k + 1 <= |actions| && NothingAsked(more);
    }
  }

  lemma IsolatedMeansOwn(s: System)
    requires Isolated(s)
    ensures OwnPins(s)
  {
  }

  lemma NotOwn(s: System, i: nat)
    requires i < |s.pins| && !Own(s, s.pins[i])
    ensures !OwnPins(s)
  {
    assert s.pins[i] in s.pins;
  }

  // ----- Whose choice it is -----

  ghost predicate PickOverlaps(s: System, a: Action) {
    a.RequestChoice? && s.At(a.t).Idle? && !s.pick.closed && exists t :: PickBlocked(s, t)
  }

  /** One picker at a time. */
  ghost predicate PickExclusive(actions: seq<Action>) {
    forall k | 0 <= k < |actions| :: !PickOverlaps(Run(actions[..k]), actions[k])
  }

  /** A row returned was posted while the caller's own question was showing; so was a dismissal, unless
      the channel was closed. */
  ghost predicate OwnChoice(s: System, r: Picked) {
    (r.result.Some? ==> r.ask.Some? && r.post.Some?) &&
    (r.post.Some? ==> r.ask.Some? && r.post.value < |s.choicePosts| && s.choicePosts[r.post.value] == Post(r.result, r.ask))
  }

  ghost predicate OwnChoices(s: System) {
    forall r | r in s.picks :: OwnChoice(s, r)
  }

  ghost predicate PickMailboxIsRight(s: System) {
    (if s.choiceShowing.Some? then
       s.choiceShowing.value < |s.choiceAsks| && s.pick.asking == Some(s.choiceAsks[s.choiceShowing.value])
     else s.pick.asking == None) &&
    (!s.pick.closed && s.pick.answer.Some? && s.choiceShowing.Some? ==>
       s.choicePost < |s.choicePosts| && s.choicePosts[s.choicePost] == Post(s.pick.answer.value, s.choiceShowing))
  }

  ghost predicate PickBlockedIsRight(s: System, t: Thread) {
    PickBlocked(s, t) ==>
      (!s.pick.closed ==> s.choiceShowing == Some(s.At(t).choiceAsk)) && forall u | PickBlocked(s, u) :: u == t
  }

  ghost predicate PickIsolated(s: System) {
    PickMailboxIsRight(s) && (forall t :: PickBlockedIsRight(s, t)) && OwnChoices(s)
  }

  lemma PickMailboxStaysRight(s: System, a: Action)
    requires PickMailboxIsRight(s)
    ensures PickMailboxIsRight(Next(s, a)) && s.choicePosts <= Next(s, a).choicePosts
  {
  }

  lemma WhoPicks(s: System, a: Action, t: Thread)
    requires PickBlocked(Next(s, a), t)
    ensures PickBlocked(s, t) || (a.RequestChoice? && t == a.t && s.At(t).Idle? && !s.pick.closed
                                  && Next(s, a).choiceShowing == Some(Next(s, a).At(t).choiceAsk))
    ensures PickBlocked(s, t) ==> Next(s, a).At(t).choiceAsk == s.At(t).choiceAsk
  {
  }

  lemma WhatChoiceIsShowing(s: System, a: Action)
    ensures Next(s, a).choiceShowing != s.choiceShowing ==>
              (a.RequestChoice? && s.At(a.t).Idle? && !s.pick.closed) ||
              (PickBlocked(s, a.t) && !PickBlocked(Next(s, a), a.t)) || Next(s, a).pick.closed
    ensures s.pick.closed ==> Next(s, a).pick.closed
  {
  }

  lemma PickBlockedStaysRight(s: System, a: Action, t: Thread)
    requires (forall u :: PickBlockedIsRight(s, u)) && !PickOverlaps(s, a)
    ensures PickBlockedIsRight(Next(s, a), t)
  {
    hide Next;
    if PickBlocked(Next(s, a), t) {
      WhoPicks(s, a, t);
      WhatChoiceIsShowing(s, a);
      assert PickBlockedIsRight(s, t) && PickBlockedIsRight(s, a.t);
      forall u | PickBlocked(Next(s, a), u)
        ensures u == t
      {
        WhoPicks(s, a, u);
      }
    }
  }

  lemma ChoicesStayOwn(s: System, a: Action, r: Picked)
    requires PickIsolated(s) && r in Next(s, a).picks
    ensures OwnChoice(Next(s, a), r)
  {
    PickMailboxStaysRight(s, a);
    if r in s.picks {
      hide Next;
      assert OwnChoice(s, r);
    } else {
      assert PickBlockedIsRight(s, a.t);
    }
  }

  /** With one picker at a time, in every run: each choice a call returns was posted while its own question
      was showing. */
  lemma {:induction false} ChoiceIsolation(actions: seq<Action>)
    requires PickExclusive(actions)
    ensures PickIsolated(Run(actions))
  {
    if actions != [] {
      hide Next, PickIsolated;
      var n := |actions| - 1;
      forall k | 0 <= k < n
        ensures !PickOverlaps(Run(actions[..n][..k]), actions[..n][k])
      {
        assert actions[..n][..k] == actions[..k];
      }
      ChoiceIsolation(actions[..n]);
      PickStaysIsolated(Run(actions[..n]), actions[n]);
    } else {
      assert PickIsolated(START);
    }
  }

  lemma PickStaysIsolated(s: System, a: Action)
    requires PickIsolated(s) && !PickOverlaps(s, a)
    ensures PickIsolated(Next(s, a))
  {
    hide Next;
    PickMailboxStaysRight(s, a);
    forall t ensures PickBlockedIsRight(Next(s, a), t) { PickBlockedStaysRight(s, a, t); }
    forall r | r in Next(s, a).picks ensures OwnChoice(Next(s, a), r) { ChoicesStayOwn(s, a, r); }
  }

  /** Over a blocked picker a second question can take its place, and its answer goes to the first call. */
  lemma PickOverlapBreaksIsolation(s: System, t: Thread, other: Thread, screen: Thread, choices: seq<string>, row: nat)
    requires PickOverlaps(s, RequestChoice(other, choices)) && PickBlocked(s, t) && s.At(screen).Idle? && screen != other
    requires s.At(t).choiceAsk < |s.choiceAsks|
    ensures var asked := Next(s, RequestChoice(other, choices));
            var n := Next(Next(Next(asked, AnswerChoice(screen, Some(row))), NotifyPick(screen)), ResumeChoice(t));
            n.picks == s.picks + [Picked(Some(s.At(t).choiceAsk), Some(row), Some(|s.choicePosts|))]
            && n.choicePosts[|s.choicePosts|] == Post(Some(row), Some(|s.choiceAsks|))
            && !OwnChoice(n, n.picks[|s.picks|])
  {
    var s1 := Next(s, RequestChoice(other, choices));
    assert s1.At(t) == s.At(t) && s1.At(screen).Idle? && !s1.pick.closed && s1.choiceShowing == Some(|s.choiceAsks|);
    ChoiceIsDelivered(s1, t, screen, Some(row));
  }

  ghost predicate OwnChoicesHoweverItGoesOn(actions: seq<Action>) {
    forall k, more | 0 <= k <= |actions| && NothingAsked(more) :: OwnChoices(Run(actions[..k] + more))
  }

  /** Each prefix of a run returns only choices posted to the callers' own questions, however it goes on, if and
      only if the run has one picker at a time. */
  lemma ChoiceIsolationIsExact(actions: seq<Action>)
    ensures OwnChoicesHoweverItGoesOn(actions) <==> PickExclusive(actions)
  {
    hide Next, Run, OwnChoices;
    if PickExclusive(actions) {
      forall k, more | 0 <= k <= |actions| && NothingAsked(more)
        ensures OwnChoices(Run(actions[..k] + more))
      {
        StaysExclusive(actions, k, more);
        ChoiceIsolation(actions[..k] + more);
      }
    }
    if k :| 0 <= k < |actions| && PickOverlaps(Run(actions[..k]), actions[k]) {
      var s, a := Run(actions[..k]), actions[k];
      var t :| PickBlocked(s, t);
      var screen := Newcomer(s, a.t);
      AsksAreAlwaysRight(actions[..k]);
      assert PickBlocked(s, t) && a == RequestChoice(a.t, a.choices);
      PickOverlapBreaksIsolation(s, t, a.t, screen, a.choices, 0);
      Then(actions[..k], a);
      assert actions[..k] + [a] == actions[..k + 1];
      var more := [AnswerChoice(screen, Some(0)), NotifyPick(screen), ResumeChoice(t)];
      ThreeMore(actions[..k + 1], more[0], more[1], more[2]);
      NotOwnChoice(Run(actions[..k + 1] + more), |s.picks|);
      assert 0 <= k + 1 <= |actions| && NothingAsked(more);
    }
  }

  lemma NotOwnChoice(s: System, i: nat)
    requires i < |s.picks| && !OwnChoice(s, s.picks[i])
    ensures !OwnChoices(s)
  {
    assert s.picks[i] in s.picks;
  }
}
