/** The two directions of a muted tunnel. Each runs the same loop: read a chunk,
    consult the mute they share, write. Between its read and its write neither
    yields, so a run is any interleaving of whole turns. */
module MuteTunnel {
  import opened Wrappers
  import opened TlsMute

  /** One turn: the chunk read (none at the end of the stream), and whether the write went through. */
  datatype Turn =
    | FromClient(chunk: seq<Byte>, written: bool)
    | FromUpstream(chunk: seq<Byte>, written: bool)

  /** `clientRead` and `upstreamRead` are all the bytes read so far, the other two all that was written. */
  datatype Wire = Wire(
    mute: State, upRunning: bool, downRunning: bool,
    clientRead: seq<Byte>, upstreamRead: seq<Byte>, toUpstream: seq<Byte>, toClient: seq<Byte>)

  /** A plain request was forwarded before the loops start, so its tunnel is mute from the outset. */
  function Start(connect: bool): Wire {
    Wire(State(connect, [], false, false, !connect), true, true, [], [], [], [])
  }

  function Next(w: Wire, t: Turn): Wire {
    match t
    case FromClient(chunk, written) =>
      if !w.upRunning then w
      else if chunk == [] then w.(upRunning := false)
      else
        w.(mute := AfterSending(w.mute, chunk),
           clientRead := w.clientRead + chunk,
           toUpstream := if written then w.toUpstream + chunk else w.toUpstream,
           upRunning := written)
    case FromUpstream(chunk, written) =>
      if !w.downRunning then w
      else if chunk == [] then w.(downRunning := false)
      else if w.mute.on then w.(upstreamRead := w.upstreamRead + chunk)
      else
        w.(upstreamRead := w.upstreamRead + chunk,
           toClient := if written then w.toClient + chunk else w.toClient,
           downRunning := written)
  }

  function Run(w: Wire, turns: seq<Turn>): Wire {
    if turns == [] then w else Next(Run(w, turns[..|turns| - 1]), turns[|turns| - 1])
  }

  class Tunnel {
    const mute: Mute
    var upRunning: bool
    var downRunning: bool
    var clientRead: seq<Byte>
    var upstreamRead: seq<Byte>
    var toUpstream: seq<Byte>
    var toClient: seq<Byte>

    ghost function Now(): Wire
      reads this, mute
    {
      Wire(mute.Now(), upRunning, downRunning, clientRead, upstreamRead, toUpstream, toClient)
    }

    constructor (connect: bool)
      ensures Now() == Start(connect) && fresh(mute)
    {
      var m := new Mute(connect);
      if !connect {
        m.on := true;
      }
      mute := m;
      upRunning, downRunning := true, true;
      clientRead, upstreamRead, toUpstream, toClient := [], [], [], [];
    }

    /** A turn of `pipe(cr, uw, mute, upstream=True)`. */
    method ClientTurn(chunk: seq<Byte>, written: bool)
      requires upRunning
      modifies this, mute
      ensures Now() == Next(old(Now()), FromClient(chunk, written))
    {
      if chunk == [] {
        upRunning := false;
        return;
      }
      clientRead := clientRead + chunk;
      mute.ClientSent(chunk);
      if written {
        toUpstream := toUpstream + chunk;
      } else {
        upRunning := false;
      }
    }

    /** A turn of `pipe(ur, cw, mute)`. */
    method UpstreamTurn(chunk: seq<Byte>, written: bool)
      requires downRunning
      modifies this
      ensures Now() == Next(old(Now()), FromUpstream(chunk, written))
    {
      if chunk == [] {
        downRunning := false;
        return;
      }
      upstreamRead := upstreamRead + chunk;
      if mute.on {
        return;
      }
      if written {
        toClient := toClient + chunk;
      } else {
        downRunning := false;
      }
    }

    /** Both loops, taking turns as `turns` says. */
    method Serve(turns: seq<Turn>)
      modifies this, mute
      ensures Now() == Run(old(Now()), turns)
    {
      for i := 0 to |turns|
        invariant Now() == Run(old(Now()), turns[..i])
      {
        match turns[i] {
          case FromClient(chunk, written) =>
            if upRunning { ClientTurn(chunk, written); }
          case FromUpstream(chunk, written) =>
            if downRunning { UpstreamTurn(chunk, written); }
        }
        assert turns[..i + 1][..i] == turns[..i];
      }
      assert turns[..|turns|] == turns;
    }
  }

  // ----- Safety -----

  /** What holds at every moment of a TLS tunnel. */
  ghost predicate Safe(w: Wire) {
    Reads(w.mute, w.clientRead) &&
    w.toUpstream <= w.clientRead && (w.upRunning ==> w.toUpstream == w.clientRead) &&
    w.toClient <= w.upstreamRead &&
    (!HasRequest(Kinds(w.clientRead)) && w.downRunning ==> w.toClient == w.upstreamRead)
  }

  lemma {:induction false} AlwaysSafe(turns: seq<Turn>)
    ensures Safe(Run(Start(true), turns))
  {
    if turns == [] {
      assert Kinds([]) == [] && SentAll(FRESH, []) == FRESH && Join([]) == [];
      AnyChunksRead([]);
    } else {
      AlwaysSafe(turns[..|turns| - 1]);
      TurnKeepsSafe(Run(Start(true), turns[..|turns| - 1]), turns[|turns| - 1]);
    }
  }

  lemma TurnKeepsSafe(w: Wire, t: Turn)
    requires Safe(w)
    ensures Safe(Next(w, t))
    ensures HasRequest(Kinds(w.clientRead)) ==> Next(w, t).toClient == w.toClient && HasRequest(Kinds(Next(w, t).clientRead))
  {
    if t.FromClient? && w.upRunning && t.chunk != [] {
      SentReads(w.mute, w.clientRead, t.chunk);
      RecordsOfConcat(w.clientRead, t.chunk);
      Extended(Kinds(w.clientRead), Kinds(Rest(w.clientRead) + t.chunk));
    }
  }

  /** Once the request has been read from the client, nothing upstream sends is passed on. */
  lemma {:induction false} SilentAfterRequest(before: seq<Turn>, after: seq<Turn>)
    requires HasRequest(Kinds(Run(Start(true), before).clientRead))
    ensures Run(Start(true), before + after).toClient == Run(Start(true), before).toClient
    ensures HasRequest(Kinds(Run(Start(true), before + after).clientRead))
  {
    hide Next, Safe, Start, Kinds, HasRequest;
    if after == [] {
      assert before + after == before;
    } else {
      var n := |after| - 1;
      SilentAfterRequest(before, after[..n]);
      assert (before + after)[..|before + after| - 1] == before + after[..n];
      AlwaysSafe(before + after[..n]);
      TurnKeepsSafe(Run(Start(true), before + after[..n]), after[n]);
    }
  }

  /** A reply byte is withheld only once the request that asked for it is on its way
      upstream, unless a write failed. */
  lemma WithheldOnlyAfterRequest(turns: seq<Turn>)
    ensures var w := Run(Start(true), turns);
            w.upRunning && w.downRunning && w.toClient != w.upstreamRead ==> HasRequest(Kinds(w.toUpstream))
  {
    AlwaysSafe(turns);
  }

  /** A plain tunnel passes nothing back, and every client byte on. */
  lemma {:induction false} PlainIsSilent(turns: seq<Turn>)
    ensures var w := Run(Start(false), turns);
            w.toClient == [] && w.toUpstream <= w.clientRead && (w.upRunning ==> w.toUpstream == w.clientRead) && w.mute.on
  {
    if turns != [] {
      PlainIsSilent(turns[..|turns| - 1]);
    }
  }

  // ----- What a run carries -----

  /** A turn that ends the upstream direction: the end of the client's stream, or a failed write. */
  predicate EndsUp(t: Turn) {
    t.FromClient? && (t.chunk == [] || !t.written)
  }

  /** The number of turns before the first that ends it. */
  function UpTurns(turns: seq<Turn>): (e: nat)
    ensures e <= |turns| && (e < |turns| ==> EndsUp(turns[e]))
    ensures forall k | 0 <= k < e :: !EndsUp(turns[k])
  {
    if turns == [] then 0
    else
      var most := turns[..|turns| - 1];
      var e := UpTurns(most);
      if e < |most| || EndsUp(turns[|most|]) then e else |turns|
  }

  /** What the client and upstream have to say in `turns`, chunk after chunk. */
  function ClientBytes(turns: seq<Turn>): seq<Byte> {
    if turns == [] then []
    else
      var last := turns[|turns| - 1];
      ClientBytes(turns[..|turns| - 1]) + (if last.FromClient? then last.chunk else [])
  }

  function UpstreamBytes(turns: seq<Turn>): seq<Byte> {
    if turns == [] then []
    else
      var last := turns[|turns| - 1];
      UpstreamBytes(turns[..|turns| - 1]) + (if last.FromUpstream? then last.chunk else [])
  }

  /** `n` turns, and the one that ended them if there is one. */
  function Through(turns: seq<Turn>, n: nat): seq<Turn> {
    if n < |turns| then turns[..n + 1] else turns
  }

  /** The request has been read: on a plain connection from the outset. */
  ghost predicate Muted(connect: bool, turns: seq<Turn>) {
    !connect || HasRequest(Kinds(ClientBytes(Through(turns, UpTurns(turns)))))
  }

  /** A turn that ends the other direction: the end of the stream, or a failed write of what is not withheld. */
  predicate EndsDown(t: Turn, muted: bool) {
    t.FromUpstream? && (t.chunk == [] || (!muted && !t.written))
  }

  ghost function DownTurns(connect: bool, turns: seq<Turn>): (e: nat)
    ensures e <= |turns|
  {
    if turns == [] then 0
    else
      var most := turns[..|turns| - 1];
      var e := DownTurns(connect, most);
      if e < |most| || EndsDown(turns[|most|], Muted(connect, most)) then e else |turns|
  }

  /** The number of turns before the first that finds the tunnel muted or ends the direction. */
  ghost function SpokenTurns(connect: bool, turns: seq<Turn>): (e: nat)
    ensures e <= |turns|
  {
    if turns == [] then 0
    else
      var most := turns[..|turns| - 1];
      var e := SpokenTurns(connect, most);
      if e < |most| || Muted(connect, most) || EndsDown(turns[|most|], false) then e else |turns|
  }

  lemma {:induction false} WhichTurnIsFirst(connect: bool, turns: seq<Turn>)
    ensures var e := DownTurns(connect, turns);
            (e < |turns| ==> EndsDown(turns[e], Muted(connect, turns[..e]))) &&
            forall k | 0 <= k < e :: !EndsDown(turns[k], Muted(connect, turns[..k]))
    ensures var e := SpokenTurns(connect, turns);
            (e < |turns| ==> Muted(connect, turns[..e]) || EndsDown(turns[e], false)) &&
            forall k | 0 <= k < e :: !Muted(connect, turns[..k]) && !EndsDown(turns[k], false)
  {
    hide Muted, EndsDown;
    if turns != [] {
      var most := turns[..|turns| - 1];
      WhichTurnIsFirst(connect, most);
      assert forall k | 0 <= k <= |most| :: turns[..k] == most[..k];
    }
  }

  /** One more turn: where it cuts, and what it adds. */
  lemma Cuts(turns: seq<Turn>, e: nat)
    requires turns != [] && e <= |turns|
    ensures var most := turns[..|turns| - 1];
            if e < |most| then turns[..e] == most[..e] && Through(turns, e) == Through(most, e)
            else Through(turns, e) == turns && Through(most, |most|) == most && turns[..|most|] == most[..|most|] == most
                 && turns[..|turns|] == turns
  {
  }

  lemma ThroughNothing()
    ensures Through([], 0) == []
  {
  }

  lemma UpStep(w: Wire, t: Turn)
    ensures var n := Next(w, t);
            (n.upRunning <==> w.upRunning && !EndsUp(t))
            && n.clientRead == w.clientRead + (if w.upRunning && t.FromClient? then t.chunk else [])
            && n.toUpstream == w.toUpstream + (if w.upRunning && t.FromClient? && !EndsUp(t) then t.chunk else [])
            && (w.mute.on ==> n.mute.on)
  {
  }

  lemma DownStep(w: Wire, t: Turn)
    ensures var n := Next(w, t);
            (n.downRunning <==> w.downRunning && !EndsDown(t, w.mute.on))
            && n.upstreamRead == w.upstreamRead + (if w.downRunning && t.FromUpstream? then t.chunk else [])
            && n.toClient == w.toClient + (if w.downRunning && t.FromUpstream? && !w.mute.on && !EndsDown(t, false)
                                           then t.chunk else [])
  {
  }

  lemma {:induction false} UpIsCarried(connect: bool, turns: seq<Turn>)
    ensures var w, up := Run(Start(connect), turns), UpTurns(turns);
            (w.upRunning <==> up == |turns|) && w.clientRead == ClientBytes(Through(turns, up))
            && w.toUpstream == ClientBytes(turns[..up])
  {
    hide Next, Through;
    if turns == [] {
      ThroughNothing();
    } else {
      var most, last := turns[..|turns| - 1], turns[|turns| - 1];
      UpIsCarried(connect, most);
      UpStep(Run(Start(connect), most), last);
      Cuts(turns, UpTurns(turns));
    }
  }

  lemma MuteIsRight(connect: bool, turns: seq<Turn>)
    ensures Run(Start(connect), turns).mute.on <==> Muted(connect, turns)
  {
    UpIsCarried(connect, turns);
    if connect { AlwaysSafe(turns); } else { PlainIsSilent(turns); }
  }

  lemma {:induction false} DownIsCarried(connect: bool, turns: seq<Turn>)
    ensures var w, down, spoken := Run(Start(connect), turns), DownTurns(connect, turns), SpokenTurns(connect, turns);
            && (w.downRunning <==> down == |turns|)
            && w.upstreamRead == UpstreamBytes(Through(turns, down))
            && w.toClient == UpstreamBytes(turns[..spoken])
            && (spoken < |turns| ==> w.mute.on || !w.downRunning)
            && (spoken == |turns| ==> w.downRunning)
  {
    hide Next, Through, Muted;
    if turns == [] {
      ThroughNothing();
    } else {
      var most, last := turns[..|turns| - 1], turns[|turns| - 1];
      DownIsCarried(connect, most);
      MuteIsRight(connect, most);
      UpStep(Run(Start(connect), most), last);
      DownStep(Run(Start(connect), most), last);
      Cuts(turns, DownTurns(connect, turns));
      Cuts(turns, SpokenTurns(connect, turns));
    }
  }

  /** Over every run of either kind of tunnel. Upstream gets what the client says before that direction ends, and the
      client what upstream says before the mute is on or that direction ends; each goes on exactly until one of its
      own turns ends it, and reads until then. */
  lemma {:induction false} WhatIsCarried(connect: bool, turns: seq<Turn>)
    ensures var w, up, down := Run(Start(connect), turns), UpTurns(turns), DownTurns(connect, turns);
            && (w.upRunning <==> up == |turns|)
            && w.clientRead == ClientBytes(Through(turns, up))
            && w.toUpstream == ClientBytes(turns[..up])
            && (w.mute.on <==> Muted(connect, turns))
            && (w.downRunning <==> down == |turns|)
            && w.upstreamRead == UpstreamBytes(Through(turns, down))
            && w.toClient == UpstreamBytes(turns[..SpokenTurns(connect, turns)])
  {
    hide *;
    UpIsCarried(connect, turns);
    MuteIsRight(connect, turns);
    DownIsCarried(connect, turns);
  }
}
