/** The mainnet space and the testnet space: every network belongs to one, and
    every list a person sees is the space in front's share of all networks. */
module NetworkSpace {
  import opened Wrappers

  datatype Space = Mainnet | Testnet

  datatype Builtin = Builtin(chainId: nat, symbol: string, testnet: bool)

  /** `testnet` is what the person said, if they said. */
  datatype Custom = Custom(chainId: nat, symbol: string, testnet: Option<bool>)

  type Network = (nat, string)

  /** What the store says. */
  datatype Document = Document(space: Space, custom: seq<Custom>)

  // ----- Which space a network is of -----

  function FindBuiltin(builtins: seq<Builtin>, id: nat): Option<Builtin> {
    if builtins == [] then None
    else if builtins[0].chainId == id then Some(builtins[0])
    else FindBuiltin(builtins[1..], id)
  }

  function FindCustom(custom: seq<Custom>, id: nat): Option<Custom> {
    if custom == [] then None
    else if custom[0].chainId == id then Some(custom[0])
    else FindCustom(custom[1..], id)
  }

  /** The built-in table's word, else the person's, else a testnet. */
  predicate ChainIsTestnet(builtins: seq<Builtin>, custom: seq<Custom>, id: nat) {
    var b, c := FindBuiltin(builtins, id), FindCustom(custom, id);
    if b.Some? then b.value.testnet
    else if c.Some? then c.value.testnet.None? || c.value.testnet.value
    else true
  }

  predicate InSpace(builtins: seq<Builtin>, d: Document, id: nat) {
    ChainIsTestnet(builtins, d.custom, id) == d.space.Testnet?
  }

  // ----- The lists -----

  function Coins(builtins: seq<Builtin>): seq<Network> {
    seq(|builtins|, i requires 0 <= i < |builtins| => (builtins[i].chainId, builtins[i].symbol))
  }

  predicate Lists(networks: seq<Network>, id: nat) {
    exists i :: 0 <= i < |networks| && networks[i].0 == id
  }

  /** `out` after the networks added, each listed only if its id is not there yet. */
  function WithAdded(out: seq<Network>, custom: seq<Custom>): seq<Network> {
    if custom == [] then out
    else
      var before, last := WithAdded(out, custom[..|custom| - 1]), custom[|custom| - 1];
      if Lists(before, last.chainId) then before else before + [(last.chainId, last.symbol)]
  }

  method AllNetworks(builtins: seq<Builtin>, d: Document) returns (out: seq<Network>)
    ensures out == WithAdded(Coins(builtins), d.custom)
  {
    out := Coins(builtins);
    for i := 0 to |d.custom|
      invariant out == WithAdded(Coins(builtins), d.custom[..i])
    {
      assert d.custom[..i + 1][..i] == d.custom[..i];
      var network := d.custom[i];
      if !Lists(out, network.chainId) {
        out := out + [(network.chainId, network.symbol)];
      }
    }
    assert d.custom[..|d.custom|] == d.custom;
  }

  function Ids(networks: seq<Network>): (ids: seq<nat>)
    ensures |ids| == |networks|
  {
    seq(|networks|, i requires 0 <= i < |networks| => networks[i].0)
  }

  /** `ids` without the other space's. */
  function Retain(builtins: seq<Builtin>, d: Document, ids: seq<nat>): seq<nat> {
    if ids == [] then []
    else
      var before, last := Retain(builtins, d, ids[..|ids| - 1]), ids[|ids| - 1];
      if InSpace(builtins, d, last) then before + [last] else before
  }

  function Among(networks: seq<Network>, ids: seq<nat>): seq<Network> {
    if networks == [] then []
    else
      var before, last := Among(networks[..|networks| - 1], ids), networks[|networks| - 1];
      if last.0 in ids then before + [last] else before
  }

  /** The networks of the space in front. The snapshot is taken twice: `listed` for the list of all
      networks, and `d`, later, for the space and what is of it. */
  function SpaceNetworks(builtins: seq<Builtin>, listed: Document, d: Document): seq<Network> {
    var all := WithAdded(Coins(builtins), listed.custom);
    Among(all, Retain(builtins, d, Ids(all)))
  }

  // ----- All networks, once each -----

  ghost predicate Distinct(networks: seq<Network>) {
    forall i, j | 0 <= i < j < |networks| :: networks[i].0 != networks[j].0
  }

  /** The networks listed first stay in front, each id is listed once, and the ids are
      those listed before and those added. */
  lemma {:induction false} EveryNetworkOnce(out: seq<Network>, custom: seq<Custom>)
    requires Distinct(out)
    ensures var all := WithAdded(out, custom);
            Distinct(all) && out <= all
            && forall id :: Lists(all, id) <==> Lists(out, id) || FindCustom(custom, id).Some?
  {
    if custom != [] {
      var n := |custom| - 1;
      EveryNetworkOnce(out, custom[..n]);
      var before, all := WithAdded(out, custom[..n]), WithAdded(out, custom);
      assert custom == custom[..n] + [custom[n]];
      forall id
        ensures Lists(all, id) <==> Lists(before, id) || custom[n].chainId == id
      {
        if all != before {
          assert all[|before|].0 == custom[n].chainId;
          if Lists(before, id) {
            var i :| 0 <= i < |before| && before[i].0 == id;
            assert all[i].0 == id;
          }
        }
      }
      forall id
        ensures FindCustom(custom, id).Some? <==> FindCustom(custom[..n], id).Some? || custom[n].chainId == id
      {
        FoundInFront(custom[..n], custom[n], id);
      }
    }
  }

  /** Records added later are listed behind those added before. */
  lemma {:induction false} AddedBehind(out: seq<Network>, custom: seq<Custom>, more: seq<Custom>)
    ensures WithAdded(out, custom) <= WithAdded(out, custom + more)
  {
    if more == [] {
      assert custom + more == custom;
    } else {
      var n := |more| - 1;
      AddedBehind(out, custom, more[..n]);
      assert (custom + more)[..|custom + more| - 1] == custom + more[..n];
    }
  }

  /** The record found is the first that names the network. */
  lemma {:induction false} FoundIsFirst(custom: seq<Custom>, i: nat)
    requires i < |custom| && forall j | 0 <= j < i :: custom[j].chainId != custom[i].chainId
    ensures FindCustom(custom, custom[i].chainId) == Some(custom[i])
  {
    if i != 0 { FoundIsFirst(custom[1..], i - 1); }
  }

  lemma {:induction false} FoundInFront(custom: seq<Custom>, last: Custom, id: nat)
    ensures FindCustom(custom + [last], id) ==
            if FindCustom(custom, id).Some? then FindCustom(custom, id)
            else if last.chainId == id then Some(last) else None
  {
    if custom == [] {
      assert custom + [last] == [last];
    } else {
      assert (custom + [last])[1..] == custom[1..] + [last];
      FoundInFront(custom[1..], last, id);
    }
  }

  /** A network that was added wears the coin of the first record that names it. */
  lemma {:induction false} AddedCoin(out: seq<Network>, custom: seq<Custom>, i: nat)
    requires |out| <= i < |WithAdded(out, custom)|
    requires Distinct(out)
    ensures var n := WithAdded(out, custom)[i];
            FindCustom(custom, n.0).Some? && FindCustom(custom, n.0).value.symbol == n.1
  {
    if custom != [] {
      var k := |custom| - 1;
      var before := WithAdded(out, custom[..k]);
      assert custom == custom[..k] + [custom[k]];
      EveryNetworkOnce(out, custom[..k]);
      FoundInFront(custom[..k], custom[k], WithAdded(out, custom)[i].0);
      if i < |before| {
        AddedCoin(out, custom[..k], i);
      }
    }
  }

  // ----- Each network in exactly one space -----

  /** `all` is `left` and `right` shuffled together, each in its own order. */
  ghost predicate Shuffle<T>(all: seq<T>, left: seq<T>, right: seq<T>)
    decreases |all|
  {
    if all == [] then left == [] && right == []
    else
      var n, last := |all| - 1, all[|all| - 1];
      || (left != [] && left[|left| - 1] == last && Shuffle(all[..n], left[..|left| - 1], right))
      || (right != [] && right[|right| - 1] == last && Shuffle(all[..n], left, right[..|right| - 1]))
  }

  lemma {:induction false} Retained(builtins: seq<Builtin>, d: Document, ids: seq<nat>, id: nat)
    ensures id in Retain(builtins, d, ids) <==> id in ids && InSpace(builtins, d, id)
  {
    if ids != [] {
      var n := |ids| - 1;
      Retained(builtins, d, ids[..n], id);
      assert ids == ids[..n] + [ids[n]];
    }
  }

  /** What is retained keeps its order: the two spaces' shares, shuffled together, are all the ids. */
  lemma {:induction false} RetainedInOrder(builtins: seq<Builtin>, custom: seq<Custom>, ids: seq<nat>)
    ensures Shuffle(ids, Retain(builtins, Document(Mainnet, custom), ids), Retain(builtins, Document(Testnet, custom), ids))
  {
    if ids != [] {
      var n := |ids| - 1;
      RetainedInOrder(builtins, custom, ids[..n]);
      var l, r := Retain(builtins, Document(Mainnet, custom), ids[..n]), Retain(builtins, Document(Testnet, custom), ids[..n]);
      assert (l + [ids[n]])[..|l|] == l && (r + [ids[n]])[..|r|] == r;
    }
  }

  lemma {:induction false} ListedAmong(networks: seq<Network>, ids: seq<nat>, x: Network)
    ensures x in Among(networks, ids) <==> x in networks && x.0 in ids
  {
    if networks != [] {
      var n := |networks| - 1;
      ListedAmong(networks[..n], ids, x);
      assert networks == networks[..n] + [networks[n]];
    }
  }

  lemma {:induction false} SplitByIds(networks: seq<Network>, left: seq<nat>, right: seq<nat>)
    requires forall i | 0 <= i < |networks| :: networks[i].0 in left <==> networks[i].0 !in right
    ensures Shuffle(networks, Among(networks, left), Among(networks, right))
  {
    if networks != [] {
      var n := |networks| - 1;
      SplitByIds(networks[..n], left, right);
      var l, r := Among(networks[..n], left), Among(networks[..n], right);
      assert (l + [networks[n]])[..|l|] == l && (r + [networks[n]])[..|r|] == r;
    }
  }

  /** The two spaces' lists, shuffled together, are the list of all networks: nothing is lost,
      nothing listed twice, and each space keeps the order. */
  lemma SpacesPartitionTheNetworks(builtins: seq<Builtin>, listed: Document, custom: seq<Custom>)
    ensures Shuffle(WithAdded(Coins(builtins), listed.custom),
                    SpaceNetworks(builtins, listed, Document(Mainnet, custom)),
                    SpaceNetworks(builtins, listed, Document(Testnet, custom)))
    ensures forall x, y | x in SpaceNetworks(builtins, listed, Document(Mainnet, custom))
                          && y in SpaceNetworks(builtins, listed, Document(Testnet, custom)) :: x.0 != y.0
  {
    var all, main, test := WithAdded(Coins(builtins), listed.custom), Document(Mainnet, custom), Document(Testnet, custom);
    var left, right := Retain(builtins, main, Ids(all)), Retain(builtins, test, Ids(all));
    forall i | 0 <= i < |all|
      ensures all[i].0 in left <==> all[i].0 !in right
    {
      assert Ids(all)[i] == all[i].0;
      Retained(builtins, main, Ids(all), all[i].0);
      Retained(builtins, test, Ids(all), all[i].0);
    }
    SplitByIds(all, left, right);
    forall x, y | x in Among(all, left) && y in Among(all, right)
      ensures x.0 != y.0
    {
      ListedAmong(all, left, x);
      ListedAmong(all, right, y);
      Retained(builtins, main, Ids(all), x.0);
      Retained(builtins, test, Ids(all), y.0);
    }
  }

  /** A network is on the list in front exactly when it was a network of the wallet at the first look and
      `in_space` says so at the second. */
  lemma ListAgreesWithInSpace(builtins: seq<Builtin>, listed: Document, d: Document, x: Network)
    ensures x in SpaceNetworks(builtins, listed, d) <==>
              x in WithAdded(Coins(builtins), listed.custom) && InSpace(builtins, d, x.0)
  {
    var all := WithAdded(Coins(builtins), listed.custom);
    ListedAmong(all, Retain(builtins, d, Ids(all)), x);
    Retained(builtins, d, Ids(all), x.0);
    if x in all {
      var i :| 0 <= i < |all| && all[i] == x;
      assert Ids(all)[i] == x.0;
    }
  }

  /** A list torn by a write between the two looks. It is wrong about the later document exactly for the
      networks of its space that only one of the two documents has; and one that has been removed is
      then taken for a testnet. */
  lemma TornList(builtins: seq<Builtin>, listed: Document, d: Document, x: Network)
    requires Distinct(Coins(builtins))
    ensures (x in SpaceNetworks(builtins, listed, d) <==> x in SpaceNetworks(builtins, d, d)) <==>
              (InSpace(builtins, d, x.0) ==>
                 (x in WithAdded(Coins(builtins), listed.custom) <==> x in WithAdded(Coins(builtins), d.custom)))
    ensures x in WithAdded(Coins(builtins), listed.custom) && !Lists(WithAdded(Coins(builtins), d.custom), x.0) ==>
              (x in SpaceNetworks(builtins, listed, d) <==> d.space.Testnet?)
  {
    hide SpaceNetworks, WithAdded;
    ListAgreesWithInSpace(builtins, listed, d, x);
    ListAgreesWithInSpace(builtins, d, d, x);
    EveryNetworkOnce(Coins(builtins), d.custom);
    FoundBuiltin(builtins, x.0);
  }

  lemma {:induction false} FoundBuiltin(builtins: seq<Builtin>, id: nat)
    ensures FindBuiltin(builtins, id).None? <==> !Lists(Coins(builtins), id)
    ensures FindBuiltin(builtins, id).Some? ==>
              FindBuiltin(builtins, id).value in builtins && FindBuiltin(builtins, id).value.chainId == id
  {
    if builtins != [] {
      FoundBuiltin(builtins[1..], id);
      assert Coins(builtins) == [(builtins[0].chainId, builtins[0].symbol)] + Coins(builtins[1..]);
      ListsOneMore((builtins[0].chainId, builtins[0].symbol), Coins(builtins[1..]), id);
    }
  }

  lemma ListsOneMore(first: Network, networks: seq<Network>, id: nat)
    ensures Lists([first] + networks, id) <==> first.0 == id || Lists(networks, id)
  {
    assert forall i | 0 <= i < |networks| :: ([first] + networks)[i + 1] == networks[i];
    assert ([first] + networks)[0] == first;
  }

  lemma {:induction false} FoundCustom(custom: seq<Custom>, id: nat)
    ensures FindCustom(custom, id).Some? ==> FindCustom(custom, id).value.chainId == id
  {
    if custom != [] { FoundCustom(custom[1..], id); }
  }

  ghost predicate Built(builtins: seq<Builtin>, x: Network, testnet: bool) {
    exists i :: 0 <= i < |builtins| && builtins[i] == Builtin(x.0, x.1, testnet)
  }

  /** A network of the wallet is a built-in one, or the first record of one that is not built in. */
  lemma WhatIsListed(builtins: seq<Builtin>, custom: seq<Custom>, x: Network)
    requires Distinct(Coins(builtins))
    ensures x in WithAdded(Coins(builtins), custom) <==>
              x in Coins(builtins) ||
              (!Lists(Coins(builtins), x.0) && FindCustom(custom, x.0).Some? && FindCustom(custom, x.0).value.symbol == x.1)
  {
    var out, all := Coins(builtins), WithAdded(Coins(builtins), custom);
    EveryNetworkOnce(out, custom);
    if x in all {
      var i :| 0 <= i < |all| && all[i] == x;
      if |out| <= i {
        AddedCoin(out, custom, i);
        assert forall j | 0 <= j < |out| :: out[j] == all[j];
      } else {
        assert out[i] == x;
      }
    }
    if !Lists(out, x.0) && FindCustom(custom, x.0).Some? && FindCustom(custom, x.0).value.symbol == x.1 {
      var i :| 0 <= i < |all| && all[i].0 == x.0;
      assert forall j | 0 <= j < |out| :: out[j].0 == all[j].0 != x.0;
      AddedCoin(out, custom, i);
    }
    if x in out {
      var i :| 0 <= i < |out| && out[i] == x;
      assert all[i] == x;
    }
  }

  /** Nothing is on the mainnet list without someone's word: the built-in table's, or for a network
      not built in the person's own. What neither vouches for is on the testnet list. */
  lemma MainnetIsVouchedFor(builtins: seq<Builtin>, custom: seq<Custom>, x: Network)
    requires Distinct(Coins(builtins))
    ensures x in SpaceNetworks(builtins, Document(Mainnet, custom), Document(Mainnet, custom)) <==>
              Built(builtins, x, false) ||
              (!Lists(Coins(builtins), x.0) && FindCustom(custom, x.0) == Some(Custom(x.0, x.1, Some(false))))
  {
    hide SpaceNetworks, WithAdded;
    ListAgreesWithInSpace(builtins, Document(Mainnet, custom), Document(Mainnet, custom), x);
    WhatIsListed(builtins, custom, x);
    FoundBuiltin(builtins, x.0);
    FoundCustom(custom, x.0);
    BuiltinFound(builtins, x);
  }

  lemma BuiltinFound(builtins: seq<Builtin>, x: Network)
    requires Distinct(Coins(builtins))
    ensures forall testnet :: Built(builtins, x, testnet) <==> FindBuiltin(builtins, x.0) == Some(Builtin(x.0, x.1, testnet))
    ensures x in Coins(builtins) <==> FindBuiltin(builtins, x.0).Some? && FindBuiltin(builtins, x.0).value.symbol == x.1
  {
    forall i | 0 <= i < |builtins|
      ensures Coins(builtins)[i] == (builtins[i].chainId, builtins[i].symbol)
      ensures FindBuiltin(builtins, builtins[i].chainId) == Some(builtins[i])
    {
      FoundAt(builtins, i);
    }
    FoundBuiltin(builtins, x.0);
    var b := FindBuiltin(builtins, x.0);
    if b.Some? {
      var i :| 0 <= i < |builtins| && builtins[i] == b.value;
      assert Coins(builtins)[i] == (b.value.chainId, b.value.symbol);
    }
  }

  lemma {:induction false} FoundAt(builtins: seq<Builtin>, i: nat)
    requires Distinct(Coins(builtins)) && i < |builtins|
    ensures FindBuiltin(builtins, builtins[i].chainId) == Some(builtins[i])
  {
    if i != 0 {
      assert Coins(builtins)[0].0 != Coins(builtins)[i].0;
      assert forall k | 0 <= k < |builtins| - 1 :: Coins(builtins[1..])[k] == Coins(builtins)[k + 1];
      FoundAt(builtins[1..], i - 1);
    }
  }
}
