/**
 * `getValidatorIPs` (generate-geo.js:20-49): join the cluster nodes with the
 * vote accounts and extract each validator's IP. The two RPC results are
 * parameters; `rpcCall` itself is not part of this model.
 */
module Directory {
  import opened Records
  import Keyed

  function AccountNode(a: VoteAccount): string { a.nodePubkey }
  function AccountVote(a: VoteAccount): string { a.votePubkey }

  /** `nodeToVote` as filled from `[...current, ...delinquent]`. */
  function NodeToVote(current: seq<VoteAccount>, delinquent: seq<VoteAccount>): map<string, string>
  {
    Keyed.LastWins(current + delinquent, AccountNode, AccountVote)
  }

  /** `gossip.split(':')[0]`: the text before the first colon, or all of it when there is none. */
  function IpOf(gossip: string): (ip: string)
    ensures ':' !in ip
    ensures ip <= gossip
    ensures |ip| < |gossip| ==> gossip[|ip|] == ':'
  {
    if gossip == [] || gossip[0] == ':' then [] else [gossip[0]] + IpOf(gossip[1..])
  }

  /** `node.gossip && nodeToVote[node.pubkey]`, both read as JavaScript truthiness. */
  predicate Qualifies(node: ClusterNode, nodeToVote: map<string, string>)
  {
    && node.gossip.Some? && node.gossip.value != ""
    && node.pubkey in nodeToVote && nodeToVote[node.pubkey] != ""
  }

  function ValidatorOf(node: ClusterNode, nodeToVote: map<string, string>): Validator
    requires Qualifies(node, nodeToVote)
  {
    Validator(node.pubkey, nodeToVote[node.pubkey], IpOf(node.gossip.value))
  }

  /** What a joined validator satisfies: a known, non-empty vote key and an IP without a port. */
  predicate Joined(v: Validator, nodeToVote: map<string, string>)
  {
    && v.nodePubkey in nodeToVote && nodeToVote[v.nodePubkey] == v.votePubkey
    && v.votePubkey != ""
    && ':' !in v.ip
  }

  /** The `validators` array built from `clusterNodes` in order. */
  function Join(nodes: seq<ClusterNode>, nodeToVote: map<string, string>): (vs: seq<Validator>)
    ensures |vs| <= |nodes|
    ensures forall i :: 0 <= i < |vs| ==> Joined(vs[i], nodeToVote)
  {
    if nodes == [] then []
    else
      var last := nodes[|nodes| - 1];
      Join(nodes[..|nodes| - 1], nodeToVote)
        + (if Qualifies(last, nodeToVote) then [ValidatorOf(last, nodeToVote)] else [])
  }

  /** The join keeps the order of the cluster nodes: it distributes over concatenation. */
  lemma {:induction false} JoinAppend(a: seq<ClusterNode>, b: seq<ClusterNode>, nodeToVote: map<string, string>)
    ensures Join(a + b, nodeToVote) == Join(a, nodeToVote) + Join(b, nodeToVote)
  {
    if b == [] {
      assert a + b == a;
    } else {
      var init := b[..|b| - 1];
      assert (a + b)[..|a + b| - 1] == a + init;
      JoinAppend(a, init, nodeToVote);
    }
  }

  /** A validator is in the join exactly when some qualifying node produces it. */
  lemma {:induction false} JoinMember(nodes: seq<ClusterNode>, nodeToVote: map<string, string>, v: Validator)
    ensures v in Join(nodes, nodeToVote) <==>
      exists i :: 0 <= i < |nodes| && Qualifies(nodes[i], nodeToVote) && ValidatorOf(nodes[i], nodeToVote) == v
  {
    if nodes != [] {
      var init := nodes[..|nodes| - 1];
      var last := nodes[|nodes| - 1];
      JoinMember(init, nodeToVote, v);
      if v in Join(init, nodeToVote) {
        var i :| 0 <= i < |init| && Qualifies(init[i], nodeToVote) && ValidatorOf(init[i], nodeToVote) == v;
        assert nodes[i] == init[i];
      } else if Qualifies(last, nodeToVote) && ValidatorOf(last, nodeToVote) == v {
        assert nodes[|nodes| - 1] == last;
      }
      if exists i :: 0 <= i < |nodes| && Qualifies(nodes[i], nodeToVote) && ValidatorOf(nodes[i], nodeToVote) == v {
        var i :| 0 <= i < |nodes| && Qualifies(nodes[i], nodeToVote) && ValidatorOf(nodes[i], nodeToVote) == v;
        if i < |init| {
          assert init[i] == nodes[i];
        }
      }
    }
  }

  /** Cluster nodes with distinct keys give validators with distinct keys. */
  lemma {:induction false} JoinDistinct(nodes: seq<ClusterNode>, nodeToVote: map<string, string>)
    requires forall i, j :: 0 <= i < j < |nodes| ==> nodes[i].pubkey != nodes[j].pubkey
    ensures DistinctNodes(Join(nodes, nodeToVote))
  {
    if nodes != [] {
      var init := nodes[..|nodes| - 1];
      var last := nodes[|nodes| - 1];
      JoinDistinct(init, nodeToVote);
      var front := Join(init, nodeToVote);
      if Qualifies(last, nodeToVote) {
        forall i | 0 <= i < |front|
          ensures front[i].nodePubkey != last.pubkey
        {
          JoinMember(init, nodeToVote, front[i]);
          var m :| 0 <= m < |init| && Qualifies(init[m], nodeToVote) && ValidatorOf(init[m], nodeToVote) == front[i];
          assert init[m] == nodes[m];
        }
      }
    }
  }

  /** A node is named somewhere in `[...current, ...delinquent]` exactly when it is named in one of the two lists. */
  lemma NamedInConcat(current: seq<VoteAccount>, delinquent: seq<VoteAccount>, k: string)
    ensures (exists i :: 0 <= i < |current + delinquent| && AccountNode((current + delinquent)[i]) == k) <==>
      (exists i :: 0 <= i < |current| && current[i].nodePubkey == k) ||
      (exists i :: 0 <= i < |delinquent| && delinquent[i].nodePubkey == k)
  {
    var all := current + delinquent;
    if exists i :: 0 <= i < |all| && AccountNode(all[i]) == k {
      var i :| 0 <= i < |all| && AccountNode(all[i]) == k;
      if i >= |current| {
        assert delinquent[i - |current|] == all[i];
      } else {
        assert current[i] == all[i];
      }
    }
    if exists i :: 0 <= i < |delinquent| && delinquent[i].nodePubkey == k {
      var i :| 0 <= i < |delinquent| && delinquent[i].nodePubkey == k;
      assert AccountNode(all[|current| + i]) == k;
    }
    if exists i :: 0 <= i < |current| && current[i].nodePubkey == k {
      var i :| 0 <= i < |current| && current[i].nodePubkey == k;
      assert AccountNode(all[i]) == k;
    }
  }

  /** The map knows a node exactly when a current or a delinquent account names it. */
  lemma NodeToVoteKeys(current: seq<VoteAccount>, delinquent: seq<VoteAccount>, k: string)
    ensures k in NodeToVote(current, delinquent) <==>
      (exists i :: 0 <= i < |current| && current[i].nodePubkey == k) ||
      (exists i :: 0 <= i < |delinquent| && delinquent[i].nodePubkey == k)
  {
    Keyed.LastWinsKeys(current + delinquent, AccountNode, AccountVote, k);
    NamedInConcat(current, delinquent, k);
  }

  /** A delinquent account overrides a current account for the same node (and an earlier delinquent one). */
  lemma DelinquentWins(current: seq<VoteAccount>, delinquent: seq<VoteAccount>, i: nat)
    requires i < |delinquent|
    requires forall j :: i < j < |delinquent| ==> delinquent[j].nodePubkey != delinquent[i].nodePubkey
    ensures delinquent[i].nodePubkey in NodeToVote(current, delinquent)
    ensures NodeToVote(current, delinquent)[delinquent[i].nodePubkey] == delinquent[i].votePubkey
  {
    var all := current + delinquent;
    var n := |current| + i;
    assert all[n] == delinquent[i];
    forall j | n < j < |all|
      ensures AccountNode(all[j]) != AccountNode(all[n])
    {
      assert all[j] == delinquent[j - |current|];
    }
    Keyed.LastWinsValue(all, AccountNode, AccountVote, n);
  }

  /** A current account is used when no later account, current or delinquent, names the same node. */
  lemma CurrentKept(current: seq<VoteAccount>, delinquent: seq<VoteAccount>, i: nat)
    requires i < |current|
    requires forall j :: i < j < |current| ==> current[j].nodePubkey != current[i].nodePubkey
    requires forall j :: 0 <= j < |delinquent| ==> delinquent[j].nodePubkey != current[i].nodePubkey
    ensures current[i].nodePubkey in NodeToVote(current, delinquent)
    ensures NodeToVote(current, delinquent)[current[i].nodePubkey] == current[i].votePubkey
  {
    var all := current + delinquent;
    assert all[i] == current[i];
    forall j | i < j < |all|
      ensures AccountNode(all[j]) != AccountNode(all[i])
    {
      if j < |current| {
        assert all[j] == current[j];
      } else {
        assert all[j] == delinquent[j - |current|];
      }
    }
    Keyed.LastWinsValue(all, AccountNode, AccountVote, i);
  }

  /** `getValidatorIPs` with the two RPC results passed in. */
  method GetValidatorIPs(clusterNodes: seq<ClusterNode>, current: seq<VoteAccount>, delinquent: seq<VoteAccount>)
    returns (validators: seq<Validator>)
    ensures validators == Join(clusterNodes, NodeToVote(current, delinquent))
  {
    var allVoteAccounts := current + delinquent;

    var nodeToVote: map<string, string> := map[];
    for i := 0 to |allVoteAccounts|
      invariant nodeToVote == Keyed.LastWins(allVoteAccounts[..i], AccountNode, AccountVote)
    {
      var v := allVoteAccounts[i];
      assert allVoteAccounts[..i + 1][..i] == allVoteAccounts[..i];
      nodeToVote := nodeToVote[v.nodePubkey := v.votePubkey];
    }
    assert allVoteAccounts[..|allVoteAccounts|] == allVoteAccounts;

    validators := [];
    for i := 0 to |clusterNodes|
      invariant validators == Join(clusterNodes[..i], nodeToVote)
    {
      var node := clusterNodes[i];
      assert clusterNodes[..i + 1][..i] == clusterNodes[..i];
      if node.gossip.Some? && node.gossip.value != "" && node.pubkey in nodeToVote && nodeToVote[node.pubkey] != "" {
        var ip := IpOf(node.gossip.value);
        validators := validators + [Validator(node.pubkey, nodeToVote[node.pubkey], ip)];
      }
    }
    assert clusterNodes[..|clusterNodes|] == clusterNodes;
  }
}
