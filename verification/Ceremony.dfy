/** The channel between the ceremony threads, which ask for a PIN or a wallet and
    block until a screen answers, and the screen, which answers or leaves. */
module Ceremony {
  import opened Wrappers

  type Device = string
  type Pin = string

  datatype PinRequest = PinRequest(device: Device, retry: bool)

  /** In an answer, `None` is a dismissal. */
  datatype PinState = PinState(
    asking: Option<PinRequest>, answer: Option<Option<Pin>>, cached: map<Device, Pin>, closed: bool)

  datatype PickState = PickState(asking: Option<seq<string>>, answer: Option<Option<nat>>, closed: bool)

  /** How a critical section of a blocking call ends. */
  datatype Outcome<+T> = Wait | Return(result: Option<T>)

  // ----- The mailboxes after each critical section -----

  function PinRequested(s: PinState, request: PinRequest): (PinState, Outcome<Pin>) {
    if s.closed then (s, Return(None))
    else if !request.retry && request.device in s.cached then (s, Return(Some(s.cached[request.device])))
    else
      (s.(asking := Some(request), answer := None,
          cached := if request.retry then s.cached - {request.device} else s.cached), Wait)
  }

  function PinResumed(s: PinState, device: Device): (PinState, Outcome<Pin>) {
    if s.closed then (s, Return(None))
    else if s.answer == None then (s, Wait)
    else
      var answer := s.answer.value;
      (s.(asking := None, answer := None,
          cached := if answer.Some? then s.cached[device := answer.value] else s.cached - {device}), Return(answer))
  }

  function PinAnswered(s: PinState, value: Option<Pin>): PinState {
    s.(answer := Some(value))
  }

  const PIN_CLOSED := PinState(None, Some(None), map[], true)

  function ChoiceRequested(s: PickState, choices: seq<string>): (PickState, Outcome<nat>) {
    if s.closed then (s, Return(None)) else (s.(asking := Some(choices), answer := None), Wait)
  }

  function ChoiceResumed(s: PickState): (PickState, Outcome<nat>) {
    if s.closed then (s, Return(None))
    else if s.answer == None then (s, Wait)
    else (s.(asking := None, answer := None), Return(s.answer.value))
  }

  function ChoiceAnswered(s: PickState, index: Option<nat>): PickState {
    s.(answer := Some(index))
  }

  const PICK_CLOSED := PickState(None, Some(None), true)

  class CeremonyChannel {
    var pinAsking: Option<PinRequest>
    var pinAnswer: Option<Option<Pin>>
    var cached: map<Device, Pin>
    var pinClosed: bool
    var pickAsking: Option<seq<string>>
    var pickAnswer: Option<Option<nat>>
    var pickClosed: bool

    function PinNow(): PinState
      reads this
    {
      PinState(pinAsking, pinAnswer, cached, pinClosed)
    }

    function PickNow(): PickState
      reads this
    {
      PickState(pickAsking, pickAnswer, pickClosed)
    }

    constructor ()
      ensures PinNow() == PinState(None, None, map[], false) && PickNow() == PickState(None, None, false)
    {
      pinAsking, pinAnswer, cached, pinClosed := None, None, map[], false;
      pickAsking, pickAnswer, pickClosed := None, None, false;
    }

    /** `request_pin` up to its first wait. */
    method RequestPin(request: PinRequest) returns (o: Outcome<Pin>)
      modifies this
      ensures (PinNow(), o) == PinRequested(old(PinNow()), request) && PickNow() == old(PickNow())
    {
      if pinClosed {
        return Return(None);
      }
      if request.retry {
        cached := cached - {request.device};
      } else if request.device in cached {
        return Return(Some(cached[request.device]));
      }
      pinAsking := Some(request);
      pinAnswer := None;
      o := ResumePin(request.device);
    }

    /** One turn of its loop, with the lock held again. */
    method ResumePin(device: Device) returns (o: Outcome<Pin>)
      modifies this
      ensures (PinNow(), o) == PinResumed(old(PinNow()), device) && PickNow() == old(PickNow())
    {
      if pinClosed {
        return Return(None);
      }
      if pinAnswer.Some? {
        var answer := pinAnswer.value;
        pinAnswer := None;
        pinAsking := None;
        match answer {
          case Some(pin) => cached := cached[device := pin];
          case None => cached := cached - {device};
        }
        return Return(answer);
      }
      return Wait;
    }

    method AnswerPin(value: Option<Pin>)
      modifies this
      ensures PinNow() == PinAnswered(old(PinNow()), value) && PickNow() == old(PickNow())
    {
      pinAnswer := Some(value);
    }

    /** `request_choice` up to its first wait. */
    method RequestChoice(choices: seq<string>) returns (o: Outcome<nat>)
      modifies this
      ensures (PickNow(), o) == ChoiceRequested(old(PickNow()), choices) && PinNow() == old(PinNow())
    {
      if pickClosed {
        return Return(None);
      }
      pickAsking := Some(choices);
      pickAnswer := None;
      o := ResumeChoice();
    }

    method ResumeChoice() returns (o: Outcome<nat>)
      modifies this
      ensures (PickNow(), o) == ChoiceResumed(old(PickNow())) && PinNow() == old(PinNow())
    {
      if pickClosed {
        return Return(None);
      }
      if pickAnswer.Some? {
        o := Return(pickAnswer.value);
        pickAnswer := None;
        pickAsking := None;
        return;
      }
      return Wait;
    }

    method AnswerChoice(index: Option<nat>)
      modifies this
      ensures PickNow() == ChoiceAnswered(old(PickNow()), index) && PinNow() == old(PinNow())
    {
      pickAnswer := Some(index);
    }

    /** The PIN half of `close`. */
    method ClosePin()
      modifies this
      ensures PinNow() == PIN_CLOSED && PickNow() == old(PickNow())
    {
      pinClosed := true;
      cached := map[];
      pinAsking := None;
      pinAnswer := Some(None);
    }

    /** The picker's half. */
    method ClosePick()
      modifies this
      ensures PickNow() == PICK_CLOSED && PinNow() == old(PinNow())
    {
      pickClosed := true;
      pickAsking := None;
      pickAnswer := Some(None);
    }

    /** `close`, the wakeups aside. */
    method Close()
      modifies this
      ensures PinNow() == PIN_CLOSED && PickNow() == PICK_CLOSED
    {
      ClosePin();
      ClosePick();
    }
  }
}
