/** The driver of one machine: it gives every operation the core asks for an id,
    keeps the request until an answer with that id arrives, and shrugs at answers
    nobody is waiting for. The core is any pair of functions on any model. */
module CoreHost {
  import opened Wrappers

  /** `handle` stands for the resume point inside the core. */
  datatype Request<Op> = Request(operation: Op, handle: nat)

  datatype Effect<Op> = Render | Shell(request: Request<Op>)

  datatype Pending<Op> = Pending(id: nat, operation: Op)

  /** `None` from `resolve`: the command that owned the request was aborted. */
  datatype Core<!Model, !Event, !Op, !Output> = Core(
    process: (Model, Event) -> (Model, seq<Effect<Op>>),
    resolve: (Model, Request<Op>, Output) -> (Model, Option<seq<Effect<Op>>>))

  datatype Host<Model, Op> = Host(model: Model, pending: map<nat, Request<Op>>, nextId: nat)

  datatype Call<Event, Output> = Dispatch(event: Event) | Resolve(id: nat, output: Output)

  /** The requests among `effects`, in order: a render asks for nothing. */
  function Requests<Op>(effects: seq<Effect<Op>>): seq<Request<Op>> {
    if effects == [] then []
    else
      var last := effects[|effects| - 1];
      Requests(effects[..|effects| - 1]) + if last.Shell? then [last.request] else []
  }

  /** Each effect counts in its place: a request as itself, a render for nothing. */
  lemma {:induction false} RequestsInPlace<Op>(effects: seq<Effect<Op>>, i: nat)
    requires i < |effects|
    ensures Requests(effects) == Requests(effects[..i]) + (if effects[i].Shell? then [effects[i].request] else [])
                                 + Requests(effects[i + 1..])
  {
    var n := |effects| - 1;
    var rest := effects[i + 1..];
    if i == n {
      assert rest == [];
    } else {
      RequestsInPlace(effects[..n], i);
      assert effects[..n][..i] == effects[..i] && effects[..n][i + 1..] == rest[..|rest| - 1];
      assert rest[|rest| - 1] == effects[n];
    }
  }

  /** Consecutive ids from `nextId + 1` on. */
  function Numbered<Op>(nextId: nat, requests: seq<Request<Op>>): (out: seq<Pending<Op>>)
    ensures |out| == |requests|
  {
    seq(|requests|, i requires 0 <= i < |requests| => Pending(nextId + 1 + i, requests[i].operation))
  }

  /** The request that gets the number `id` when numbering starts behind `nextId`. */
  function NumberedAs<Op>(nextId: nat, requests: seq<Request<Op>>, id: nat): Request<Op>
    requires nextId < id <= nextId + |requests|
  {
    requests[id - nextId - 1]
  }

  function Enter<Op>(pending: map<nat, Request<Op>>, nextId: nat, requests: seq<Request<Op>>): map<nat, Request<Op>> {
    pending + map id | nextId < id <= nextId + |requests| :: NumberedAs(nextId, requests, id)
  }

  function Collect<Model, Op>(h: Host<Model, Op>, effects: seq<Effect<Op>>): (Host<Model, Op>, seq<Pending<Op>>) {
    var rs := Requests(effects);
    (h.(pending := Enter(h.pending, h.nextId, rs), nextId := h.nextId + |rs|), Numbered(h.nextId, rs))
  }

  function Answer<Model, Event, Op, Output>(
    core: Core<Model, Event, Op, Output>, h: Host<Model, Op>, call: Call<Event, Output>)
    : (Host<Model, Op>, seq<Pending<Op>>)
  {
    match call
    case Dispatch(event) =>
      var (model, effects) := core.process(h.model, event);
      Collect(h.(model := model), effects)
    case Resolve(id, output) =>
      if id !in h.pending then (h, [])
      else
        var (model, effects) := core.resolve(h.model, h.pending[id], output);
        var rest := h.(model := model, pending := h.pending - {id});
        if effects.None? then (rest, []) else Collect(rest, effects.value)
  }

  class CoreHost<Model, Event, Op, Output> {
    const core: Core<Model, Event, Op, Output>
    var model: Model
    var pending: map<nat, Request<Op>>
    var nextId: nat

    function Now(): Host<Model, Op>
      reads this
    {
      Host(model, pending, nextId)
    }

    constructor (core: Core<Model, Event, Op, Output>, model: Model)
      ensures this.core == core && Now() == Host(model, map[], 0)
    {
      this.core, this.model, pending, nextId := core, model, map[], 0;
    }

    method Dispatch(event: Event) returns (out: seq<Pending<Op>>)
      modifies this
      ensures (Now(), out) == Answer(core, old(Now()), Call.Dispatch(event))
    {
      var (m, effects) := core.process(model, event);
      model := m;
      out := CollectEffects(effects);
    }

    method Resolve(id: nat, output: Output) returns (out: seq<Pending<Op>>)
      modifies this
      ensures (Now(), out) == Answer(core, old(Now()), Call.Resolve(id, output))
    {
      if id !in pending {
        return [];
      }
      var request := pending[id];
      pending := pending - {id};
      var (m, effects) := core.resolve(model, request, output);
      model := m;
      match effects {
        case Some(es) => out := CollectEffects(es);
        case None => out := [];
      }
    }

    method IsIdle() returns (idle: bool)
      ensures idle <==> Now().pending == map[]
    {
      idle := |pending| == 0;
    }

    method CollectEffects(effects: seq<Effect<Op>>) returns (out: seq<Pending<Op>>)
      modifies this`pending, this`nextId
      ensures (Now(), out) == Collect(old(Now()), effects)
    {
      hide Enter, Numbered, Requests;
      out := [];
      NoRequests(pending, nextId);
      assert effects[..0] == [];
      for i := 0 to |effects|
        invariant (Now(), out) == Collect(old(Now()), effects[..i])
      {
        OneMoreEffect(effects, i);
        if effects[i].Shell? {
          var request := effects[i].request;
          OneMoreRequest(old(pending), old(nextId), Requests(effects[..i]), request);
          nextId := nextId + 1;
          out := out + [Pending(nextId, request.operation)];
          pending := pending[nextId := request];
        }
      }
      assert effects[..|effects|] == effects;
    }

    /** A run of calls to a new host: it ends idle exactly when every operation handed out has been answered. */
    method Perform(calls: seq<Call<Event, Output>>) returns (handed: seq<Pending<Op>>, idle: bool)
      requires pending == map[] && nextId == 0
      modifies this
      ensures var s := Run(core, old(model), calls); Now() == s.host && handed == s.handed
      ensures idle <==> forall id | 1 <= id <= nextId :: AnswerArrived(core, old(model), calls, id)
    {
      hide Answer, AnswerArrived;
      handed := [];
      for i := 0 to |calls|
        invariant Now() == Run(core, old(model), calls[..i]).host && handed == Run(core, old(model), calls[..i]).handed
      {
        assert calls[..i + 1][..i] == calls[..i];
        var out;
        match calls[i] {
          case Dispatch(event) => out := Dispatch(event);
          case Resolve(id, output) => out := Resolve(id, output);
        }
        handed := handed + out;
      }
      assert calls[..|calls|] == calls;
      idle := IsIdle();
      IdleMeansAllAnswered(core, old(model), calls);
    }
  }

  lemma NoRequests<Op>(pending: map<nat, Request<Op>>, nextId: nat)
    ensures Requests<Op>([]) == [] && Enter(pending, nextId, []) == pending && Numbered<Op>(nextId, []) == []
  {
  }

  lemma OneMoreEffect<Op>(effects: seq<Effect<Op>>, i: nat)
    requires i < |effects|
    ensures Requests(effects[..i + 1]) ==
            if effects[i].Shell? then Requests(effects[..i]) + [effects[i].request] else Requests(effects[..i])
  {
    assert effects[..i + 1][..i] == effects[..i];
  }

  lemma OneMoreRequest<Op>(pending: map<nat, Request<Op>>, nextId: nat, rs: seq<Request<Op>>, r: Request<Op>)
    ensures Enter(pending, nextId, rs + [r]) == Enter(pending, nextId, rs)[nextId + |rs| + 1 := r]
    ensures Numbered(nextId, rs + [r]) == Numbered(nextId, rs) + [Pending(nextId + |rs| + 1, r.operation)]
  {
  }

  // ----- Runs -----

  /** The host, with what the core has asked for so far, the ids whose answers were
      passed on to it, and everything callers were handed to perform. */
  datatype System<Model, Op> = System(
    host: Host<Model, Op>, issued: seq<Request<Op>>, answered: seq<nat>, handed: seq<Pending<Op>>)

  /** What the core asks for when it is given this call. */
  function Asked<Model, Event, Op, Output>(
    core: Core<Model, Event, Op, Output>, h: Host<Model, Op>, call: Call<Event, Output>)
    : seq<Request<Op>>
  {
    match call
    case Dispatch(event) => Requests(core.process(h.model, event).1)
    case Resolve(id, output) =>
      if id !in h.pending then []
      else
        var effects := core.resolve(h.model, h.pending[id], output).1;
        if effects.None? then [] else Requests(effects.value)
  }

  function Next<Model, Event, Op, Output>(
    core: Core<Model, Event, Op, Output>, s: System<Model, Op>, call: Call<Event, Output>)
    : System<Model, Op>
  {
    var (host, out) := Answer(core, s.host, call);
    System(host, s.issued + Asked(core, s.host, call),
           if call.Resolve? && call.id in s.host.pending then s.answered + [call.id] else s.answered,
           s.handed + out)
  }

  function Run<Model, Event, Op, Output>(
    core: Core<Model, Event, Op, Output>, model: Model, calls: seq<Call<Event, Output>>)
    : System<Model, Op>
  {
    if calls == [] then System(Host(model, map[], 0), [], [], [])
    else Next(core, Run(core, model, calls[..|calls| - 1]), calls[|calls| - 1])
  }

  /** What is pending is exactly what was issued and not answered. */
  ghost predicate Outstanding<Op>(pending: map<nat, Request<Op>>, issued: seq<Request<Op>>, answered: seq<nat>) {
    forall id ::
      (id in pending <==> 1 <= id <= |issued| && id !in answered) &&
      (id in pending ==> pending[id] == issued[id - 1])
  }

  /** No id was answered twice, and none before it was issued. */
  ghost predicate AnsweredOnce(answered: seq<nat>, issued: nat) {
    (forall k | 0 <= k < |answered| :: 1 <= answered[k] <= issued) &&
    (forall j, k | 0 <= j < k < |answered| :: answered[j] != answered[k])
  }

  ghost predicate HandedInOrder<Op>(handed: seq<Pending<Op>>, issued: seq<Request<Op>>) {
    |handed| == |issued| && forall k | 0 <= k < |issued| :: handed[k] == Pending(k + 1, issued[k].operation)
  }

  /** Ids are 1, 2, 3, ... in the order the core asked, each handed out once with the operation of its request. */
  ghost predicate Books<Model, Op>(s: System<Model, Op>) {
    s.host.nextId == |s.issued| && HandedInOrder(s.handed, s.issued) &&
    AnsweredOnce(s.answered, |s.issued|) && Outstanding(s.host.pending, s.issued, s.answered)
  }

  lemma Issued<Op>(pending: map<nat, Request<Op>>, issued: seq<Request<Op>>, answered: seq<nat>, rs: seq<Request<Op>>)
    requires Outstanding(pending, issued, answered) && AnsweredOnce(answered, |issued|)
    ensures Outstanding(Enter(pending, |issued|, rs), issued + rs, answered)
    ensures forall handed | HandedInOrder(handed, issued) ::
              HandedInOrder(handed + Numbered(|issued|, rs), issued + rs)
  {
    var all := Enter(pending, |issued|, rs);
    forall id
      ensures id in all <==> 1 <= id <= |issued + rs| && id !in answered
      ensures id in all ==> all[id] == NumberedAs(0, issued + rs, id)
    {
      if |issued| < id { assert id !in answered; }
    }
  }

  lemma Answered<Op>(pending: map<nat, Request<Op>>, issued: seq<Request<Op>>, answered: seq<nat>, id: nat)
    requires Outstanding(pending, issued, answered) && AnsweredOnce(answered, |issued|) && id in pending
    ensures Outstanding(pending - {id}, issued, answered + [id]) && AnsweredOnce(answered + [id], |issued|)
  {
    forall other
      ensures other in answered + [id] <==> other in answered || other == id
    {
    }
  }

  lemma BooksBalance<Model, Event, Op, Output>(
    core: Core<Model, Event, Op, Output>, s: System<Model, Op>, call: Call<Event, Output>)
    requires Books(s)
    ensures Books(Next(core, s, call))
  {
    hide Outstanding, AnsweredOnce, Enter, Numbered, HandedInOrder;
    var rs := Asked(core, s.host, call);
    if call.Dispatch? {
      Issued(s.host.pending, s.issued, s.answered, rs);
    } else if call.id in s.host.pending {
      Answered(s.host.pending, s.issued, s.answered, call.id);
      Issued(s.host.pending - {call.id}, s.issued, s.answered + [call.id], rs);
    }
    MoreIssued(s.answered, |s.issued|, |rs|);
    MoreIssued(Next(core, s, call).answered, |s.issued|, |rs|);
    assert s.issued + [] == s.issued && s.handed + [] == s.handed;
  }

  lemma MoreIssued(answered: seq<nat>, issued: nat, more: nat)
    ensures AnsweredOnce(answered, issued) ==> AnsweredOnce(answered, issued + more)
  {
  }

  lemma {:induction false} BooksAlwaysBalance<Model, Event, Op, Output>(
    core: Core<Model, Event, Op, Output>, model: Model, calls: seq<Call<Event, Output>>)
    ensures Books(Run(core, model, calls))
  {
    if calls != [] {
      BooksAlwaysBalance(core, model, calls[..|calls| - 1]);
      BooksBalance(core, Run(core, model, calls[..|calls| - 1]), calls[|calls| - 1]);
    }
  }

  // ----- Late, duplicate and unknown answers -----

  /** The answer number `k` of the run named a question already asked. */
  ghost predicate AnsweredAt<Model, Event, Op, Output>(
    core: Core<Model, Event, Op, Output>, model: Model, calls: seq<Call<Event, Output>>, k: nat, id: nat)
  {
    k < |calls| && calls[k].Resolve? && calls[k].id == id && 1 <= id <= Run(core, model, calls[..k]).host.nextId
  }

  /** `resolve` was called with `id` at a time when `id` had been issued. */
  ghost predicate AnswerArrived<Model, Event, Op, Output>(
    core: Core<Model, Event, Op, Output>, model: Model, calls: seq<Call<Event, Output>>, id: nat)
  {
    exists k: nat :: AnsweredAt(core, model, calls, k, id)
  }

  lemma AnswerArrivedLast<Model, Event, Op, Output>(
    core: Core<Model, Event, Op, Output>, model: Model, calls: seq<Call<Event, Output>>, id: nat)
    requires calls != []
    ensures AnswerArrived(core, model, calls, id) <==>
              AnswerArrived(core, model, calls[..|calls| - 1], id) || AnsweredAt(core, model, calls, |calls| - 1, id)
  {
    hide Run;
    var n := |calls| - 1;
    forall k: nat | k < n
      ensures AnsweredAt(core, model, calls, k, id) <==> AnsweredAt(core, model, calls[..n], k, id)
    {
      assert calls[..n][..k] == calls[..k];
    }
    if AnswerArrived(core, model, calls[..n], id) {
      var k: nat :| AnsweredAt(core, model, calls[..n], k, id);
      assert AnsweredAt(core, model, calls, k, id);
    }
    if AnswerArrived(core, model, calls, id) {
      var k: nat :| AnsweredAt(core, model, calls, k, id);
      assert k == n || AnsweredAt(core, model, calls[..n], k, id);
    }
  }

  /** The first answer after the question is the one that counts. */
  lemma {:induction false} AnsweredExactlyWhenItArrived<Model, Event, Op, Output>(
    core: Core<Model, Event, Op, Output>, model: Model, calls: seq<Call<Event, Output>>, id: nat)
    ensures id in Run(core, model, calls).answered <==> AnswerArrived(core, model, calls, id)
  {
    if calls != [] {
      var n := |calls| - 1;
      AnsweredExactlyWhenItArrived(core, model, calls[..n], id);
      AnswerArrivedLast(core, model, calls, id);
      BooksAlwaysBalance(core, model, calls[..n]);
      CountedOrNot(core, Run(core, model, calls[..n]), calls[n], id);
    }
  }

  lemma CountedOrNot<Model, Event, Op, Output>(
    core: Core<Model, Event, Op, Output>, s: System<Model, Op>, call: Call<Event, Output>, id: nat)
    requires Books(s)
    ensures id in Next(core, s, call).answered <==>
              id in s.answered || (call.Resolve? && call.id == id && 1 <= id <= s.host.nextId)
  {
    hide Answer, Asked;
  }

  /** An answer to no outstanding question (unknown, or the second of two) changes nothing and hands out nothing. */
  lemma StrayAnswerChangesNothing<Model, Event, Op, Output>(
    core: Core<Model, Event, Op, Output>, model: Model, calls: seq<Call<Event, Output>>, id: nat, output: Output)
    requires !(1 <= id <= Run(core, model, calls).host.nextId) || AnswerArrived(core, model, calls, id)
    ensures Run(core, model, calls + [Call.Resolve(id, output)]) == Run(core, model, calls)
  {
    var s, more := Run(core, model, calls), calls + [Call.Resolve(id, output)];
    BooksAlwaysBalance(core, model, calls);
    AnsweredExactlyWhenItArrived(core, model, calls, id);
    assert id !in s.host.pending;
    assert more[..|more| - 1] == calls;
    assert s.issued + [] == s.issued && s.handed + [] == s.handed;
  }

  /** The host is idle exactly when every operation it handed out has been answered. */
  lemma IdleMeansAllAnswered<Model, Event, Op, Output>(
    core: Core<Model, Event, Op, Output>, model: Model, calls: seq<Call<Event, Output>>)
    ensures Run(core, model, calls).host.pending == map[] <==>
            forall id | 1 <= id <= Run(core, model, calls).host.nextId :: AnswerArrived(core, model, calls, id)
  {
    var s := Run(core, model, calls);
    BooksAlwaysBalance(core, model, calls);
    forall id
      ensures id in s.host.pending <==> 1 <= id <= s.host.nextId && !AnswerArrived(core, model, calls, id)
    {
      if 0 <= id { AnsweredExactlyWhenItArrived(core, model, calls, id); }
    }
  }

  // ----- What the core sees -----

  datatype Input<Event, Op, Output> = Happened(event: Event) | Told(id: nat, request: Request<Op>, output: Output)

  /** The core on its own, given `inputs` one after another, and all it has asked for. */
  function Drive<Model, Event, Op, Output>(
    core: Core<Model, Event, Op, Output>, model: Model, inputs: seq<Input<Event, Op, Output>>)
    : (Model, seq<Request<Op>>)
  {
    if inputs == [] then (model, [])
    else
      var (m, asked) := Drive(core, model, inputs[..|inputs| - 1]);
      match inputs[|inputs| - 1]
      case Happened(event) =>
        var (next, effects) := core.process(m, event);
        (next, asked + Requests(effects))
      case Told(_, request, output) =>
        var (next, effects) := core.resolve(m, request, output);
        (next, asked + if effects.Some? then Requests(effects.value) else [])
  }

  /** The core has been told the answer to its question number `id`. */
  ghost predicate Heard<Event, Op, Output>(inputs: seq<Input<Event, Op, Output>>, id: nat) {
    exists i :: 0 <= i < |inputs| && inputs[i].Told? && inputs[i].id == id
  }

  /** Every event, and each answer that is the first to one of the questions asked so far, counted from 1
      in the order the core on its own asks them. */
  ghost function Inputs<Model, Event, Op, Output>(
    core: Core<Model, Event, Op, Output>, model: Model, calls: seq<Call<Event, Output>>)
    : seq<Input<Event, Op, Output>>
  {
    if calls == [] then []
    else
      var n := |calls| - 1;
      var before := Inputs(core, model, calls[..n]);
      var asked := Drive(core, model, before).1;
      match calls[n]
      case Dispatch(event) => before + [Happened(event)]
      case Resolve(id, output) =>
        if 1 <= id <= |asked| && !Heard(before, id) then before + [Told(id, asked[id - 1], output)] else before
  }

  lemma HeardMore<Event, Op, Output>(inputs: seq<Input<Event, Op, Output>>, input: Input<Event, Op, Output>, id: nat)
    ensures Heard(inputs + [input], id) <==> Heard(inputs, id) || (input.Told? && input.id == id)
  {
    var more := inputs + [input];
    assert more[|inputs|] == input;
    assert forall i | 0 <= i < |inputs| :: more[i] == inputs[i];
  }

  /** The host is transparent: the core ends where it would have ended on its own, given every event
      and, for each question, its first answer, under the request that asked it. */
  lemma {:induction false} HostIsTransparent<Model, Event, Op, Output>(
    core: Core<Model, Event, Op, Output>, model: Model, calls: seq<Call<Event, Output>>)
    ensures var s := Run(core, model, calls);
            (s.host.model, s.issued) == Drive(core, model, Inputs(core, model, calls))
            && forall id :: id in s.answered <==> Heard(Inputs(core, model, calls), id)
  {
    if calls != [] {
      hide Heard;
      var n := |calls| - 1;
      var s, before := Run(core, model, calls[..n]), Inputs(core, model, calls[..n]);
      HostIsTransparent(core, model, calls[..n]);
      BooksAlwaysBalance(core, model, calls[..n]);
      var inputs := Inputs(core, model, calls);
      if inputs != before {
        var last := inputs[|inputs| - 1];
        assert inputs[..|inputs| - 1] == before && inputs == before + [last];
        forall id ensures Heard(inputs, id) <==> Heard(before, id) || (last.Told? && last.id == id) {
          HeardMore(before, last, id);
        }
      }
      assert s.issued + [] == s.issued;
    } else {
      assert forall id :: !Heard<Event, Op, Output>([], id);
    }
  }
}
