// The node reconciliation: match a node's peers to the managed keys, first by
// public key, then by label, each peer claimed at most once, and count what is
// left on either side.
module ReconcileMatcher {
  import opened Options

  datatype ManagedKey = ManagedKey(keyId: string, publicKey: Option<string>, nodeLabel: string, revoking: bool)
  datatype Client = Client(username: string, peerIds: seq<string>)
  datatype NodePeer = NodePeer(nodeLabel: string, id: string)

  datatype Summary = Summary(managedKeyCount: nat, observedPeerCount: nat, matchedPeerCount: nat,
                             missingManagedPeerCount: nat, orphanNodePeerCount: nat,
                             revokingKeyCount: nat, strandedRevokingPeerCount: nat)

  // Which peer each key has claimed, and the peers still free.
  datatype Matching = Matching(claimed: map<string, nat>, free: set<nat>)

  datatype Want = ById(id: string) | ByLabel(nodeLabel: string)

  predicate Wanted(p: NodePeer, w: Want) {
    match w
    case ById(id) => p.id == id
    case ByLabel(nodeLabel) => p.nodeLabel == nodeLabel
  }

  // Key ids are primary keys.
  ghost predicate DistinctKeys(keys: seq<ManagedKey>) {
    forall i, j :: 0 <= i < j < |keys| ==> keys[i].keyId != keys[j].keyId
  }

  function PeersOf(c: Client): seq<NodePeer> {
    seq(|c.peerIds|, i requires 0 <= i < |c.peerIds| => NodePeer(c.username, c.peerIds[i]))
  }

  function Flatten(clients: seq<Client>): seq<NodePeer> {
    if clients == [] then [] else PeersOf(clients[0]) + Flatten(clients[1..])
  }

  // Where the peers of client `n` start in the flat list.
  ghost function StartOf(clients: seq<Client>, n: nat): nat
    requires n <= |clients|
  {
    if n == 0 then 0 else StartOf(clients, n - 1) + |clients[n - 1].peerIds|
  }

  lemma {:induction false} StartOfRest(clients: seq<Client>, n: nat)
    requires 0 < n <= |clients|
    ensures StartOf(clients, n) == |clients[0].peerIds| + StartOf(clients[1..], n - 1)
  {
    if n > 1 {
      StartOfRest(clients, n - 1);
    }
  }

  // Entry `i` of client `n` is listed after all the entries of earlier clients,
  // under the client's username.
  lemma {:induction false} FlattenAt(clients: seq<Client>, n: nat, i: nat)
    requires n < |clients| && i < |clients[n].peerIds|
    ensures StartOf(clients, n) + i < |Flatten(clients)|
    ensures Flatten(clients)[StartOf(clients, n) + i] == NodePeer(clients[n].username, clients[n].peerIds[i])
  {
    if n > 0 {
      StartOfRest(clients, n);
      FlattenAt(clients[1..], n - 1, i);
    }
  }

  // The list holds every listed id and nothing else.
  lemma {:induction false} FlattenLength(clients: seq<Client>)
    ensures |Flatten(clients)| == StartOf(clients, |clients|)
  {
    if clients != [] {
      FlattenLength(clients[1..]);
      StartOfRest(clients, |clients|);
    }
  }

  // A peer is in the list exactly if a client of that username lists that id.
  lemma {:induction false} FlattenMembers(clients: seq<Client>, p: NodePeer)
    ensures p in Flatten(clients) <==> exists c :: c in clients && c.username == p.nodeLabel && p.id in c.peerIds
  {
    if clients != [] {
      FlattenMembers(clients[1..], p);
      assert clients == [clients[0]] + clients[1..];
      if p.nodeLabel == clients[0].username && p.id in clients[0].peerIds {
        var i :| 0 <= i < |clients[0].peerIds| && clients[0].peerIds[i] == p.id;
        assert PeersOf(clients[0])[i] == p;
      }
    }
  }

  // ---- Specification: claiming in list order --------------------------------------

  // The first free peer from `i` on that is wanted, or |peers|.
  function FirstFree(peers: seq<NodePeer>, free: set<nat>, w: Want, i: nat): (r: nat)
    requires i <= |peers|
    ensures i <= r <= |peers|
    ensures r < |peers| ==> r in free && Wanted(peers[r], w)
    ensures forall j :: i <= j < r ==> !(j in free && Wanted(peers[j], w))
    decreases |peers| - i
  {
    if i == |peers| || (i in free && Wanted(peers[i], w)) then i else FirstFree(peers, free, w, i + 1)
  }

  function Claim(peers: seq<NodePeer>, m: Matching, keyId: string, w: Want): Matching {
    var i := FirstFree(peers, m.free, w, 0);
    if i == |peers| then m else Matching(m.claimed[keyId := i], m.free - {i})
  }

  function StepById(peers: seq<NodePeer>, m: Matching, k: ManagedKey): Matching {
    if k.publicKey.None? then m else Claim(peers, m, k.keyId, ById(k.publicKey.value))
  }

  function StepByLabel(peers: seq<NodePeer>, m: Matching, k: ManagedKey): Matching {
    if k.keyId in m.claimed then m else Claim(peers, m, k.keyId, ByLabel(k.nodeLabel))
  }

  function PassById(keys: seq<ManagedKey>, peers: seq<NodePeer>, m: Matching): Matching
    decreases |keys|
  {
    if keys == [] then m else StepById(peers, PassById(keys[..|keys| - 1], peers, m), keys[|keys| - 1])
  }

  function PassByLabel(keys: seq<ManagedKey>, peers: seq<NodePeer>, m: Matching): Matching
    decreases |keys|
  {
    if keys == [] then m else StepByLabel(peers, PassByLabel(keys[..|keys| - 1], peers, m), keys[|keys| - 1])
  }

  function AllIndexes(n: nat): (s: set<nat>)
    ensures |s| == n && forall i: nat :: i in s <==> i < n
  {
    if n == 0 then {} else AllIndexes(n - 1) + {n - 1}
  }

  function Match(keys: seq<ManagedKey>, peers: seq<NodePeer>): Matching {
    PassByLabel(keys, peers, PassById(keys, peers, Matching(map[], AllIndexes(|peers|))))
  }

  function Count(keys: seq<ManagedKey>, m: Matching, revoking: bool, claimed: bool): nat {
    if keys == [] then 0
    else
      Count(keys[1..], m, revoking, claimed)
      + if keys[0].revoking == revoking && (keys[0].keyId in m.claimed) == claimed then 1 else 0
  }

  function Summarise(keys: seq<ManagedKey>, peers: seq<NodePeer>, m: Matching): Summary {
    Summary(|keys|, |peers|, Count(keys, m, false, true) + Count(keys, m, true, true),
            Count(keys, m, false, false), |m.free|,
            Count(keys, m, true, true) + Count(keys, m, true, false), Count(keys, m, true, true))
  }

  // ---- The program ------------------------------------------------------------------

  method FindPeer(peers: seq<NodePeer>, free: set<nat>, w: Want) returns (i: nat)
    ensures i == FirstFree(peers, free, w, 0)
  {
    i := 0;
    while i < |peers| && !(i in free && Wanted(peers[i], w))
      invariant 0 <= i <= |peers|
      invariant FirstFree(peers, free, w, 0) == FirstFree(peers, free, w, i)
    {
      i := i + 1;
    }
  }

  method Reconcile(keys: seq<ManagedKey>, clients: seq<Client>)
    returns (matched: map<string, nat>, unmatched: set<nat>, summary: Summary)
    ensures Matching(matched, unmatched) == Match(keys, Flatten(clients))
    ensures summary == Summarise(keys, Flatten(clients), Match(keys, Flatten(clients)))
  {
    var peers := Flatten(clients);
    unmatched := AllIndexes(|peers|);
    matched := map[];
    ghost var start := Matching(matched, unmatched);
    for n := 0 to |keys|
      invariant Matching(matched, unmatched) == PassById(keys[..n], peers, start)
    {
      var key := keys[n];
      assert keys[..n + 1][..n] == keys[..n];
      if key.publicKey.None? {
        continue;
      }
      var peerIndex := FindPeer(peers, unmatched, ById(key.publicKey.value));
      if peerIndex == |peers| {
        continue;
      }
      unmatched := unmatched - {peerIndex};
      matched := matched[key.keyId := peerIndex];
    }
    assert keys[..|keys|] == keys;
    ghost var middle := Matching(matched, unmatched);
    for n := 0 to |keys|
      invariant Matching(matched, unmatched) == PassByLabel(keys[..n], peers, middle)
    {
      var key := keys[n];
      assert keys[..n + 1][..n] == keys[..n];
      if key.keyId in matched {
        continue;
      }
      var peerIndex := FindPeer(peers, unmatched, ByLabel(key.nodeLabel));
      if peerIndex == |peers| {
        continue;
      }
      unmatched := unmatched - {peerIndex};
      matched := matched[key.keyId := peerIndex];
    }
    summary := Tally(keys, peers, matched, unmatched);
  }

  method Tally(keys: seq<ManagedKey>, peers: seq<NodePeer>, matched: map<string, nat>, unmatched: set<nat>)
    returns (summary: Summary)
    ensures summary == Summarise(keys, peers, Matching(matched, unmatched))
  {
    ghost var m := Matching(matched, unmatched);
    var held, stranded, missing, gone := 0, 0, 0, 0;
    for n := 0 to |keys|
      invariant held + Count(keys[n..], m, false, true) == Count(keys, m, false, true)
      invariant stranded + Count(keys[n..], m, true, true) == Count(keys, m, true, true)
      invariant missing + Count(keys[n..], m, false, false) == Count(keys, m, false, false)
      invariant gone + Count(keys[n..], m, true, false) == Count(keys, m, true, false)
    {
      assert keys[n..][1..] == keys[n + 1..];
      if keys[n].keyId in matched {
        if keys[n].revoking { stranded := stranded + 1; } else { held := held + 1; }
      } else {
        if keys[n].revoking { gone := gone + 1; } else { missing := missing + 1; }
      }
    }
    summary := Summary(|keys|, |peers|, held + stranded, missing, |unmatched|, stranded + gone, stranded);
  }

  // ---- What the matching guarantees ----------------------------------------------------

  ghost predicate HasKey(keys: seq<ManagedKey>, keyId: string) {
    exists i :: 0 <= i < |keys| && keys[i].keyId == keyId
  }

  // Each claimed index is a peer claimed by one key; the free ones are the rest.
  ghost predicate Exclusive(keys: seq<ManagedKey>, peers: seq<NodePeer>, m: Matching) {
    && (forall k :: k in m.claimed ==> m.claimed[k] < |peers| && m.claimed[k] !in m.free && HasKey(keys, k))
    && (forall k, l :: k in m.claimed && l in m.claimed && k != l ==> m.claimed[k] != m.claimed[l])
    && (forall i :: i in m.free ==> i < |peers|)
    && |m.claimed| + |m.free| == |peers|
  }

  lemma TakeExclusive(keys: seq<ManagedKey>, peers: seq<NodePeer>, m: Matching, keyId: string, i: nat)
    requires Exclusive(keys, peers, m) && HasKey(keys, keyId) && keyId !in m.claimed && i in m.free
    ensures Exclusive(keys, peers, Matching(m.claimed[keyId := i], m.free - {i}))
  {
    var claimed := m.claimed[keyId := i];
    assert |claimed| == |m.claimed| + 1 by {
      assert claimed.Keys == m.claimed.Keys + {keyId};
    }
    forall k | k in claimed
      ensures claimed[k] < |peers| && claimed[k] !in m.free - {i} && HasKey(keys, k)
    {
      assert k == keyId || k in m.claimed;
    }
  }

  lemma ClaimExclusive(keys: seq<ManagedKey>, peers: seq<NodePeer>, m: Matching, keyId: string, w: Want)
    requires Exclusive(keys, peers, m) && HasKey(keys, keyId) && keyId !in m.claimed
    ensures Exclusive(keys, peers, Claim(peers, m, keyId, w))
  {
    var i := FirstFree(peers, m.free, w, 0);
    if i < |peers| {
      TakeExclusive(keys, peers, m, keyId, i);
    }
  }

  // A key that has not had its turn in the first pass has claimed nothing.
  lemma {:induction false} PassByIdExclusive(all: seq<ManagedKey>, keys: seq<ManagedKey>, peers: seq<NodePeer>)
    requires DistinctKeys(all) && keys <= all
    ensures var m := PassById(keys, peers, Matching(map[], AllIndexes(|peers|)));
      Exclusive(all, peers, m) && forall k :: k in m.claimed ==> HasKey(keys, k)
    decreases |keys|
  {
    if keys != [] {
      var init, k := keys[..|keys| - 1], keys[|keys| - 1];
      PassByIdExclusive(all, init, peers);
      var m := PassById(init, peers, Matching(map[], AllIndexes(|peers|)));
      assert all[|keys| - 1] == k;
      assert forall j :: 0 <= j < |init| ==> init[j] == all[j];
      assert k.keyId !in m.claimed;
      if k.publicKey.Some? {
        ClaimExclusive(all, peers, m, k.keyId, ById(k.publicKey.value));
      }
      assert forall j :: 0 <= j < |init| ==> keys[j] == init[j];
      assert HasKey(keys, k.keyId);
      forall l | HasKey(init, l) ensures HasKey(keys, l) {
        var j :| 0 <= j < |init| && init[j].keyId == l;
        assert keys[j].keyId == l;
      }
    }
  }

  lemma {:induction false} PassByLabelExclusive(all: seq<ManagedKey>, keys: seq<ManagedKey>, peers: seq<NodePeer>, m: Matching)
    requires keys <= all && Exclusive(all, peers, m)
    ensures Exclusive(all, peers, PassByLabel(keys, peers, m))
    decreases |keys|
  {
    if keys != [] {
      var init, k := keys[..|keys| - 1], keys[|keys| - 1];
      PassByLabelExclusive(all, init, peers, m);
      assert all[|keys| - 1] == k;
      if k.keyId !in PassByLabel(init, peers, m).claimed {
        ClaimExclusive(all, peers, PassByLabel(init, peers, m), k.keyId, ByLabel(k.nodeLabel));
      }
    }
  }

  // No peer is claimed twice, and the claimed and free peers are all the peers.
  lemma MatchExclusive(keys: seq<ManagedKey>, peers: seq<NodePeer>)
    requires DistinctKeys(keys)
    ensures Exclusive(keys, peers, Match(keys, peers))
  {
    PassByIdExclusive(keys, keys, peers);
    PassByLabelExclusive(keys, keys, peers, PassById(keys, peers, Matching(map[], AllIndexes(|peers|))));
  }

  // Later claims only shrink the free set and never move an earlier claim.
  ghost predicate Extends(m: Matching, n: Matching) {
    n.free <= m.free && forall k :: k in m.claimed ==> k in n.claimed && n.claimed[k] == m.claimed[k]
  }

  lemma {:induction false} PassByLabelExtends(keys: seq<ManagedKey>, peers: seq<NodePeer>, m: Matching)
    ensures Extends(m, PassByLabel(keys, peers, m))
    decreases |keys|
  {
    if keys != [] {
      PassByLabelExtends(keys[..|keys| - 1], peers, m);
    }
  }

  lemma StepByIdExtends(peers: seq<NodePeer>, m: Matching, n: Matching, k: ManagedKey)
    requires Extends(m, n) && k.keyId !in n.claimed
    ensures Extends(m, StepById(peers, n, k))
  {}

  lemma {:induction false} PassByIdExtends(all: seq<ManagedKey>, keys: seq<ManagedKey>, more: seq<ManagedKey>, peers: seq<NodePeer>)
    requires DistinctKeys(all) && keys + more <= all
    ensures var start := Matching(map[], AllIndexes(|peers|));
      Extends(PassById(keys, peers, start), PassById(keys + more, peers, start))
    decreases |more|
  {
    var start := Matching(map[], AllIndexes(|peers|));
    if more == [] {
      assert keys + more == keys;
    } else {
      var init, k := more[..|more| - 1], more[|more| - 1];
      var both := keys + more;
      assert both[..|both| - 1] == keys + init && both[|both| - 1] == k;
      PassByIdExtends(all, keys, init, peers);
      NotYetClaimed(all, keys + init, k, peers);
      StepByIdExtends(peers, PassById(keys, peers, start), PassById(keys + init, peers, start), k);
    }
  }

  lemma NotYetClaimed(all: seq<ManagedKey>, keys: seq<ManagedKey>, k: ManagedKey, peers: seq<NodePeer>)
    requires DistinctKeys(all) && keys + [k] <= all
    ensures k.keyId !in PassById(keys, peers, Matching(map[], AllIndexes(|peers|))).claimed
  {
    assert (keys + [k])[..|keys|] == keys;
    PassByIdExclusive(all, keys, peers);
    assert all[|keys|] == (keys + [k])[|keys|] == k;
    assert forall j :: 0 <= j < |keys| ==> keys[j] == all[j];
  }

  // After its turn a key holds a peer it wanted, or no free peer is wanted by it.
  lemma ClaimSettles(peers: seq<NodePeer>, m: Matching, keyId: string, w: Want)
    ensures var n := Claim(peers, m, keyId, w);
      && n.free <= m.free
      && (keyId !in n.claimed ==> forall j :: j in n.free && j < |peers| ==> !Wanted(peers[j], w))
      && (keyId !in m.claimed && keyId in n.claimed ==> n.claimed[keyId] < |peers| && Wanted(peers[n.claimed[keyId]], w))
  {}

  // The matching is maximal: a key left without a peer shares neither its
  // public key nor its label with any unclaimed peer.
  lemma MatchMaximal(keys: seq<ManagedKey>, peers: seq<NodePeer>, i: nat, j: nat)
    requires DistinctKeys(keys) && i < |keys| && j < |peers|
    requires keys[i].keyId !in Match(keys, peers).claimed && j in Match(keys, peers).free
    ensures peers[j].nodeLabel != keys[i].nodeLabel && keys[i].publicKey != Some(peers[j].id)
  {
    var k := keys[i];
    var start := Matching(map[], AllIndexes(|peers|));
    var first := PassById(keys, peers, start);
    PassByLabelExtends(keys, peers, first);
    assert keys[..i + 1] + keys[i + 1..] == keys && keys[..i + 1][..i] == keys[..i];
    PassByIdExtends(keys, keys[..i + 1], keys[i + 1..], peers);
    if k.publicKey.Some? {
      ClaimSettles(peers, PassById(keys[..i], peers, start), k.keyId, ById(k.publicKey.value));
    }
    PassByLabelSplit(keys, peers, first, i + 1);
    PassByLabelExtends(keys[i + 1..], peers, PassByLabel(keys[..i + 1], peers, first));
    ClaimSettles(peers, PassByLabel(keys[..i], peers, first), k.keyId, ByLabel(k.nodeLabel));
  }

  lemma {:induction false} PassByLabelSplit(keys: seq<ManagedKey>, peers: seq<NodePeer>, m: Matching, n: nat)
    requires n <= |keys|
    ensures PassByLabel(keys, peers, m) == PassByLabel(keys[n..], peers, PassByLabel(keys[..n], peers, m))
    decreases |keys|
  {
    if n == |keys| {
      assert keys[n..] == [] && keys[..n] == keys;
    } else {
      var init := keys[..|keys| - 1];
      PassByLabelSplit(init, peers, m, n);
      assert init[n..] == keys[n..][..|keys[n..]| - 1] && init[..n] == keys[..n];
    }
  }

  // ---- The public key wins ----------------------------------------------------------------

  // The first peer with this public key, wherever it stands in the listing.
  function FirstWithId(peers: seq<NodePeer>, id: string): (r: nat)
    ensures r <= |peers| && (r < |peers| ==> peers[r].id == id)
    ensures forall j :: 0 <= j < r ==> peers[j].id != id
  {
    FirstFree(peers, AllIndexes(|peers|), ById(id), 0)
  }

  lemma {:induction false} IdsStayFree(keys: seq<ManagedKey>, peers: seq<NodePeer>, id: string, j: nat)
    requires j < |peers| && peers[j].id == id
    requires forall i :: 0 <= i < |keys| ==> keys[i].publicKey != Some(id)
    ensures j in PassById(keys, peers, Matching(map[], AllIndexes(|peers|))).free
    decreases |keys|
  {
    if keys != [] {
      IdsStayFree(keys[..|keys| - 1], peers, id, j);
    }
  }

  // A key whose public key no other key shares always gets the peer with that
  // public key if the node lists one, whatever the order of either list and
  // whatever the labels say.
  lemma PublicKeyWins(keys: seq<ManagedKey>, peers: seq<NodePeer>, i: nat)
    requires DistinctKeys(keys) && i < |keys| && keys[i].publicKey.Some?
    requires forall j :: 0 <= j < |keys| && j != i ==> keys[j].publicKey != keys[i].publicKey
    requires FirstWithId(peers, keys[i].publicKey.value) < |peers|
    ensures keys[i].keyId in Match(keys, peers).claimed
    ensures Match(keys, peers).claimed[keys[i].keyId] == FirstWithId(peers, keys[i].publicKey.value)
  {
    var k, id := keys[i], keys[i].publicKey.value;
    var start := Matching(map[], AllIndexes(|peers|));
    var before := PassById(keys[..i], peers, start);
    var target := FirstWithId(peers, id);
    IdsStayFree(keys[..i], peers, id, target);
    assert FirstFree(peers, before.free, ById(id), 0) == target;
    assert keys[..i + 1] + keys[i + 1..] == keys && keys[..i + 1][..i] == keys[..i];
    PassByIdExtends(keys, keys[..i + 1], keys[i + 1..], peers);
    PassByLabelExtends(keys, peers, PassById(keys, peers, start));
  }

  // On the clients as the node lists them: a key whose public key no other key
  // shares gets the first listed peer with that public key, whatever stands
  // before it under the same username.
  lemma PublicKeyWinsAmongClients(keys: seq<ManagedKey>, clients: seq<Client>, k: nat, n: nat, i: nat)
    requires DistinctKeys(keys) && k < |keys| && n < |clients| && i < |clients[n].peerIds|
    requires keys[k].publicKey == Some(clients[n].peerIds[i])
    requires forall j :: 0 <= j < |keys| && j != k ==> keys[j].publicKey != keys[k].publicKey
    requires forall m :: 0 <= m < n ==> clients[n].peerIds[i] !in clients[m].peerIds
    requires clients[n].peerIds[i] !in clients[n].peerIds[..i]
    ensures keys[k].keyId in Match(keys, Flatten(clients)).claimed
    ensures Match(keys, Flatten(clients)).claimed[keys[k].keyId] == StartOf(clients, n) + i
  {
    var peers, at, id := Flatten(clients), StartOf(clients, n) + i, clients[n].peerIds[i];
    FlattenAt(clients, n, i);
    forall j | 0 <= j < at ensures peers[j].id != id {
      var m, l := EntryAt(clients, n, j);
      assert m == n ==> clients[n].peerIds[l] in clients[n].peerIds[..i];
    }
    PublicKeyWins(keys, peers, k);
  }

  // The client and the entry behind a place before the peers of client `n + 1`.
  lemma {:induction false} EntryAt(clients: seq<Client>, n: nat, j: nat) returns (m: nat, l: nat)
    requires n < |clients| && j < StartOf(clients, n + 1)
    ensures m <= n && l < |clients[m].peerIds| && j == StartOf(clients, m) + l
    ensures j < |Flatten(clients)| && Flatten(clients)[j].id == clients[m].peerIds[l]
    decreases n
  {
    if j >= StartOf(clients, n) {
      m, l := n, j - StartOf(clients, n);
    } else {
      m, l := EntryAt(clients, n - 1, j);
    }
    FlattenAt(clients, m, l);
  }

  // A claimed peer carries the key's public key or its label.
  lemma {:induction false} ClaimsAreWanted(keys: seq<ManagedKey>, peers: seq<NodePeer>, i: nat)
    requires DistinctKeys(keys) && i < |keys| && keys[i].keyId in Match(keys, peers).claimed
    ensures var j := Match(keys, peers).claimed[keys[i].keyId];
      j < |peers| && (keys[i].publicKey == Some(peers[j].id) || peers[j].nodeLabel == keys[i].nodeLabel)
  {
    var k := keys[i];
    var start := Matching(map[], AllIndexes(|peers|));
    var first := PassById(keys, peers, start);
    PassByLabelExtends(keys, peers, first);
    if k.keyId in first.claimed {
      FirstPassWanted(keys, keys, peers, i);
    } else {
      SecondPassWanted(keys, keys, peers, first, i);
    }
  }

  lemma {:induction false} FirstPassWanted(all: seq<ManagedKey>, keys: seq<ManagedKey>, peers: seq<NodePeer>, i: nat)
    requires DistinctKeys(all) && keys <= all && i < |all|
    ensures var m := PassById(keys, peers, Matching(map[], AllIndexes(|peers|)));
      all[i].keyId in m.claimed ==>
        m.claimed[all[i].keyId] < |peers| && all[i].publicKey == Some(peers[m.claimed[all[i].keyId]].id)
    decreases |keys|
  {
    if keys != [] {
      FirstPassWanted(all, keys[..|keys| - 1], peers, i);
      assert all[|keys| - 1] == keys[|keys| - 1];
    }
  }

  lemma {:induction false} SecondPassWanted(all: seq<ManagedKey>, keys: seq<ManagedKey>, peers: seq<NodePeer>, m: Matching, i: nat)
    requires DistinctKeys(all) && keys <= all && i < |all| && all[i].keyId !in m.claimed
    ensures var n := PassByLabel(keys, peers, m);
      all[i].keyId in n.claimed ==>
        n.claimed[all[i].keyId] < |peers| && peers[n.claimed[all[i].keyId]].nodeLabel == all[i].nodeLabel
    decreases |keys|
  {
    if keys != [] {
      SecondPassWanted(all, keys[..|keys| - 1], peers, m, i);
      assert all[|keys| - 1] == keys[|keys| - 1];
    }
  }

  // ---- The counts -----------------------------------------------------------------------------

  lemma {:induction false} CountsPartition(keys: seq<ManagedKey>, m: Matching)
    ensures Count(keys, m, false, true) + Count(keys, m, true, true)
            + Count(keys, m, false, false) + Count(keys, m, true, false) == |keys|
  {
    if keys != [] {
      CountsPartition(keys[1..], m);
    }
  }

  lemma {:induction false} MatchedCount(keys: seq<ManagedKey>, m: Matching, ids: set<string>)
    requires DistinctKeys(keys) && ids == (set k | k in m.claimed && HasKey(keys, k))
    ensures Count(keys, m, false, true) + Count(keys, m, true, true) == |ids|
    decreases |keys|
  {
    if keys == [] {
      assert ids == {};
    } else {
      var rest := keys[1..];
      var id := keys[0].keyId;
      var fewer := set k | k in m.claimed && HasKey(rest, k);
      MatchedCount(rest, m, fewer);
      forall k ensures HasKey(keys, k) <==> k == id || HasKey(rest, k) {
        if HasKey(rest, k) {
          var j :| 0 <= j < |rest| && rest[j].keyId == k;
          assert keys[j + 1].keyId == k;
        }
        if HasKey(keys, k) && k != id {
          var j :| 0 <= j < |keys| && keys[j].keyId == k;
          assert rest[j - 1].keyId == k;
        }
        assert keys[0].keyId == id;
      }
      assert !HasKey(rest, id) by {
        assert forall j :: 0 <= j < |rest| ==> rest[j] == keys[j + 1];
      }
      assert ids == if id in m.claimed then fewer + {id} else fewer;
    }
  }

  // Every observed peer is matched or an orphan; every managed key is matched,
  // missing, or a revoking key whose peer is already gone.
  lemma CountsBalance(keys: seq<ManagedKey>, peers: seq<NodePeer>)
    requires DistinctKeys(keys)
    ensures var s := Summarise(keys, peers, Match(keys, peers));
      && s.observedPeerCount == s.matchedPeerCount + s.orphanNodePeerCount
      && s.managedKeyCount ==
           s.matchedPeerCount + s.missingManagedPeerCount + (s.revokingKeyCount - s.strandedRevokingPeerCount)
  {
    var m := Match(keys, peers);
    MatchExclusive(keys, peers);
    CountsPartition(keys, m);
    MatchedCount(keys, m, set k | k in m.claimed && HasKey(keys, k));
    assert (set k | k in m.claimed && HasKey(keys, k)) == m.claimed.Keys;
  }

  // The places of the keys that are revoking or not, and claimed or not.
  ghost function Places(keys: seq<ManagedKey>, m: Matching, revoking: bool, claimed: bool): set<nat> {
    set i: nat | i < |keys| && keys[i].revoking == revoking && (keys[i].keyId in m.claimed) == claimed
  }

  lemma {:induction false} ShiftSize(s: set<nat>, t: set<nat>)
    requires forall i: nat :: i in t <==> i > 0 && i - 1 in s
    ensures |s| == |t|
    decreases |s|
  {
    if s == {} {
      assert t == {};
    } else {
      var i :| i in s;
      ShiftSize(s - {i}, t - {i + 1});
    }
  }

  lemma {:induction false} CountIsSize(keys: seq<ManagedKey>, m: Matching, revoking: bool, claimed: bool)
    ensures Count(keys, m, revoking, claimed) == |Places(keys, m, revoking, claimed)|
  {
    if keys == [] {
      assert Places(keys, m, revoking, claimed) == {};
    } else {
      CountIsSize(keys[1..], m, revoking, claimed);
      var all, rest := Places(keys, m, revoking, claimed), Places(keys[1..], m, revoking, claimed);
      assert forall i: nat :: i in rest <==> i < |keys[1..]| && keys[1..][i].revoking == revoking && (keys[1..][i].keyId in m.claimed) == claimed;
      forall i: nat ensures i in all - {0} <==> i > 0 && i - 1 in rest {
        if i > 0 && i < |keys| {
          assert keys[1..][i - 1] == keys[i];
        }
      }
      ShiftSize(rest, all - {0});
    }
  }

  // What each field of the summary counts.
  lemma SummaryMeans(keys: seq<ManagedKey>, peers: seq<NodePeer>)
    requires DistinctKeys(keys)
    ensures var m := Match(keys, peers);
      var s := Summarise(keys, peers, m);
      && s.managedKeyCount == |keys| && s.observedPeerCount == |peers|
      && s.matchedPeerCount == |m.claimed|
      && s.orphanNodePeerCount == |peers| - |m.claimed|
      && s.missingManagedPeerCount == |set i: nat | i < |keys| && !keys[i].revoking && keys[i].keyId !in m.claimed|
      && s.strandedRevokingPeerCount == |set i: nat | i < |keys| && keys[i].revoking && keys[i].keyId in m.claimed|
      && s.revokingKeyCount == |set i: nat | i < |keys| && keys[i].revoking|
  {
    var m := Match(keys, peers);
    CountsBalance(keys, peers);
    MatchExclusive(keys, peers);
    CountIsSize(keys, m, false, false);
    CountIsSize(keys, m, true, false);
    CountIsSize(keys, m, true, true);
    PlacesAre(keys, m);
  }

  lemma PlacesAre(keys: seq<ManagedKey>, m: Matching)
    ensures Places(keys, m, false, false) == set i: nat | i < |keys| && !keys[i].revoking && keys[i].keyId !in m.claimed
    ensures Places(keys, m, true, true) == set i: nat | i < |keys| && keys[i].revoking && keys[i].keyId in m.claimed
    ensures |Places(keys, m, true, true)| + |Places(keys, m, true, false)| == |set i: nat | i < |keys| && keys[i].revoking|
  {
    var all := set i: nat | i < |keys| && keys[i].revoking;
    assert all == Places(keys, m, true, true) + Places(keys, m, true, false);
    assert Places(keys, m, true, true) * Places(keys, m, true, false) == {};
  }

  // On the clients as the node lists them: observed is the number of ids listed,
  // and each is matched or an orphan.
  lemma ObservedAreListed(keys: seq<ManagedKey>, clients: seq<Client>)
    requires DistinctKeys(keys)
    ensures var s := Summarise(keys, Flatten(clients), Match(keys, Flatten(clients)));
      && s.observedPeerCount == StartOf(clients, |clients|)
      && s.matchedPeerCount + s.orphanNodePeerCount == StartOf(clients, |clients|)
      && s.managedKeyCount == |keys|
      && |keys| == s.matchedPeerCount + s.missingManagedPeerCount + (s.revokingKeyCount - s.strandedRevokingPeerCount)
  {
    FlattenLength(clients);
    CountsBalance(keys, Flatten(clients));
  }
}
