/**
 * The body of `main` in generate-geo.js (lines 72-144): load the previously
 * saved records into `existing`, then walk the validators in order and for
 * each one reuse the saved record, defer it once the call budget is spent, or
 * ask the geolocator. The geolocator is the oracle `locate`; the file read
 * and write, the console output and the 100 ms pause are not modelled.
 */
module Reconciliation {
  import opened Records
  import Keyed
  import Directory

  /** `maxApiCalls` in the source: the free tier's 45 requests per minute. */
  const MaxApiCalls: nat := 45

  /** The loop's state: `results`, `apiCalls` and `newCount`. */
  datatype Run = Run(results: seq<Record>, apiCalls: nat, newCount: nat)

  function RecordNode(r: Record): string { r.nodePubkey }
  function RecordSelf(r: Record): Record { r }

  /** `existing` after `for (const v of parsed) existing[v.nodePubkey] = v`. */
  function Existing(parsed: seq<Record>): map<string, Record>
  {
    Keyed.LastWins(parsed, RecordNode, RecordSelf)
  }

  /** Every saved record is filed under its own `nodePubkey`. */
  predicate KeyedByNode(existing: map<string, Record>)
  {
    forall k :: k in existing ==> existing[k].nodePubkey == k
  }

  lemma ExistingKeyedByNode(parsed: seq<Record>)
    ensures KeyedByNode(Existing(parsed))
  {
    forall k | k in Existing(parsed)
      ensures Existing(parsed)[k].nodePubkey == k
    {
      Keyed.LastWinsOrigin(parsed, RecordNode, RecordSelf, k);
    }
  }

  /** `existing[v.nodePubkey] && existing[v.nodePubkey].lat`: the saved record, when it is usable. */
  function Cached(existing: map<string, Record>, v: Validator): Option<Record>
  {
    if v.nodePubkey in existing && HasLat(existing[v.nodePubkey]) then Some(existing[v.nodePubkey]) else None
  }

  /** The record pushed after a lookup that returned `geo`. */
  function Attempt(v: Validator, geo: Option<Geo>): Record
  {
    match geo
    case Some(g) => Located(v, g)
    case None => Bare(v)
  }

  /** One iteration of the loop over `validators`. */
  function Step(existing: map<string, Record>, locate: string -> Option<Geo>, maxApiCalls: nat, r: Run, v: Validator): Run
  {
    match Cached(existing, v)
    case Some(c) => Run(r.results + [c], r.apiCalls, r.newCount)
    case None =>
      if r.apiCalls >= maxApiCalls then Run(r.results + [Bare(v)], r.apiCalls, r.newCount)
      else
        var geo := locate(v.ip);
        Run(r.results + [Attempt(v, geo)], r.apiCalls + 1, if geo.Some? then r.newCount + 1 else r.newCount)
  }

  /** The loop's state after the validators `vs`, starting from no results and no calls. */
  function Reconcile(existing: map<string, Record>, vs: seq<Validator>, locate: string -> Option<Geo>, maxApiCalls: nat): (r: Run)
    ensures |r.results| == |vs|
    ensures r.apiCalls <= maxApiCalls && r.apiCalls <= |vs|
    ensures r.newCount <= r.apiCalls
  {
    if vs == [] then Run([], 0, 0)
    else Step(existing, locate, maxApiCalls, Reconcile(existing, vs[..|vs| - 1], locate, maxApiCalls), vs[|vs| - 1])
  }

  /** The number of validators in `vs` without a usable saved record. */
  function Misses(existing: map<string, Record>, vs: seq<Validator>): nat
  {
    if vs == [] then 0
    else Misses(existing, vs[..|vs| - 1]) + (if Cached(existing, vs[|vs| - 1]).None? then 1 else 0)
  }

  /** The number of validators in `vs` without a usable saved record whose result carries a location. */
  function FreshLocations(existing: map<string, Record>, vs: seq<Validator>, results: seq<Record>): nat
    requires |results| == |vs|
  {
    if vs == [] then 0
    else
      FreshLocations(existing, vs[..|vs| - 1], results[..|vs| - 1])
        + (if Cached(existing, vs[|vs| - 1]).None? && results[|vs| - 1].geo.Some? then 1 else 0)
  }

  function Min(a: nat, b: nat): nat { if a <= b then a else b }

  // ---------------------------------------------------------------------
  // Helpers: the state after a prefix, and the record pushed at index k.

  lemma {:induction false} PrefixStable(existing: map<string, Record>, vs: seq<Validator>, locate: string -> Option<Geo>, maxApiCalls: nat, k: nat)
    requires k <= |vs|
    ensures Reconcile(existing, vs[..k], locate, maxApiCalls).results == Reconcile(existing, vs, locate, maxApiCalls).results[..k]
    ensures Reconcile(existing, vs[..k], locate, maxApiCalls).apiCalls <= Reconcile(existing, vs, locate, maxApiCalls).apiCalls
    decreases |vs| - k
  {
    if k == |vs| {
      assert vs[..k] == vs;
    } else {
      var init := vs[..|vs| - 1];
      PrefixStable(existing, init, locate, maxApiCalls, k);
      assert init[..k] == vs[..k];
    }
  }

  lemma ResultAt(existing: map<string, Record>, vs: seq<Validator>, locate: string -> Option<Geo>, maxApiCalls: nat, k: nat)
    requires k < |vs|
    ensures Reconcile(existing, vs, locate, maxApiCalls).results[k]
         == Step(existing, locate, maxApiCalls, Reconcile(existing, vs[..k], locate, maxApiCalls), vs[k]).results[k]
    ensures Step(existing, locate, maxApiCalls, Reconcile(existing, vs[..k], locate, maxApiCalls), vs[k])
         == Reconcile(existing, vs[..k + 1], locate, maxApiCalls)
  {
    PrefixStable(existing, vs, locate, maxApiCalls, k + 1);
    assert vs[..k + 1][..k] == vs[..k];
  }

  // ---------------------------------------------------------------------
  // Properties of the loop.

  /** A usable saved record is pushed unchanged, whatever the budget, and costs no call. */
  lemma CacheHit(existing: map<string, Record>, vs: seq<Validator>, locate: string -> Option<Geo>, maxApiCalls: nat, k: nat)
    requires k < |vs|
    requires vs[k].nodePubkey in existing && HasLat(existing[vs[k].nodePubkey])
    ensures Reconcile(existing, vs, locate, maxApiCalls).results[k] == existing[vs[k].nodePubkey]
    ensures Reconcile(existing, vs[..k + 1], locate, maxApiCalls).apiCalls == Reconcile(existing, vs[..k], locate, maxApiCalls).apiCalls
  {
    ResultAt(existing, vs, locate, maxApiCalls, k);
  }

  /** Every record is about the validator at the same position. */
  lemma {:induction false} Identity(existing: map<string, Record>, vs: seq<Validator>, locate: string -> Option<Geo>, maxApiCalls: nat, k: nat)
    requires KeyedByNode(existing)
    requires k < |vs|
    ensures Reconcile(existing, vs, locate, maxApiCalls).results[k].nodePubkey == vs[k].nodePubkey
    ensures Cached(existing, vs[k]).None? ==>
      var rec := Reconcile(existing, vs, locate, maxApiCalls).results[k];
      rec.votePubkey == vs[k].votePubkey && rec.ip == vs[k].ip &&
      (rec.geo.Some? ==> rec.geo == locate(vs[k].ip))
  {
    ResultAt(existing, vs, locate, maxApiCalls, k);
  }

  /** A saved record of a node that is no longer a validator is not carried forward. */
  lemma DroppedPrior(prior: seq<Record>, vs: seq<Validator>, locate: string -> Option<Geo>, maxApiCalls: nat, p: Record)
    requires forall i :: 0 <= i < |vs| ==> vs[i].nodePubkey != p.nodePubkey
    ensures p !in Reconcile(Existing(prior), vs, locate, maxApiCalls).results
  {
    var results := Reconcile(Existing(prior), vs, locate, maxApiCalls).results;
    ExistingKeyedByNode(prior);
    if p in results {
      var k :| 0 <= k < |results| && results[k] == p;
      Identity(Existing(prior), vs, locate, maxApiCalls, k);
      assert false;
    }
  }

  /** The number of calls is the budget or the number of validators needing a lookup, whichever is smaller. */
  lemma {:induction false} CallsUsed(existing: map<string, Record>, vs: seq<Validator>, locate: string -> Option<Geo>, maxApiCalls: nat)
    ensures Reconcile(existing, vs, locate, maxApiCalls).apiCalls == Min(maxApiCalls, Misses(existing, vs))
  {
    if vs != [] {
      CallsUsed(existing, vs[..|vs| - 1], locate, maxApiCalls);
    }
  }

  /** Once the earlier validators needing a lookup have used up the budget, a validator without a usable record is deferred bare. */
  lemma Deferred(existing: map<string, Record>, vs: seq<Validator>, locate: string -> Option<Geo>, maxApiCalls: nat, k: nat)
    requires k < |vs|
    requires Cached(existing, vs[k]).None?
    requires Misses(existing, vs[..k]) >= maxApiCalls
    ensures Reconcile(existing, vs, locate, maxApiCalls).results[k] == Bare(vs[k])
  {
    ResultAt(existing, vs, locate, maxApiCalls, k);
    CallsUsed(existing, vs[..k], locate, maxApiCalls);
  }

  /** While budget remains, a validator without a usable record gets the geolocator's answer for its IP. */
  lemma Looked(existing: map<string, Record>, vs: seq<Validator>, locate: string -> Option<Geo>, maxApiCalls: nat, k: nat)
    requires k < |vs|
    requires Cached(existing, vs[k]).None?
    requires Misses(existing, vs[..k]) < maxApiCalls
    ensures Reconcile(existing, vs, locate, maxApiCalls).results[k] == Attempt(vs[k], locate(vs[k].ip))
    ensures Reconcile(existing, vs[..k + 1], locate, maxApiCalls).apiCalls == Reconcile(existing, vs[..k], locate, maxApiCalls).apiCalls + 1
  {
    ResultAt(existing, vs, locate, maxApiCalls, k);
    CallsUsed(existing, vs[..k], locate, maxApiCalls);
  }

  /** `newCount` counts exactly the validators that got a location from the geolocator in this run. */
  lemma {:induction false} NewCountExact(existing: map<string, Record>, vs: seq<Validator>, locate: string -> Option<Geo>, maxApiCalls: nat)
    ensures Reconcile(existing, vs, locate, maxApiCalls).newCount
         == FreshLocations(existing, vs, Reconcile(existing, vs, locate, maxApiCalls).results)
  {
    if vs != [] {
      var init := vs[..|vs| - 1];
      NewCountExact(existing, init, locate, maxApiCalls);
      var r := Reconcile(existing, vs, locate, maxApiCalls);
      assert r.results[..|vs| - 1] == Reconcile(existing, init, locate, maxApiCalls).results;
    }
  }

  /**
   * One iteration of the second run pushes what one iteration of the first run
   * pushed, when the second run finds that record saved under the validator's
   * key and neither run is out of budget.
   */
  lemma StepAgain(existing: map<string, Record>, saved: map<string, Record>, locate: string -> Option<Geo>, maxApiCalls: nat,
                  before1: Run, before2: Run, v: Validator)
    requires before1.apiCalls < maxApiCalls && before2.apiCalls < maxApiCalls
    requires v.nodePubkey in saved
    requires saved[v.nodePubkey] == Step(existing, locate, maxApiCalls, before1, v).results[|before1.results|]
    ensures Step(saved, locate, maxApiCalls, before2, v).results == before2.results + [saved[v.nodePubkey]]
  {
  }

  /** The same, at position k of a whole run. */
  lemma IdempotentStep(existing: map<string, Record>, saved: map<string, Record>, vs: seq<Validator>,
                       locate: string -> Option<Geo>, maxApiCalls: nat, k: nat)
    requires k < |vs| <= maxApiCalls
    requires Reconcile(saved, vs[..k], locate, maxApiCalls).results == Reconcile(existing, vs, locate, maxApiCalls).results[..k]
    requires vs[k].nodePubkey in saved && saved[vs[k].nodePubkey] == Reconcile(existing, vs, locate, maxApiCalls).results[k]
    ensures Reconcile(saved, vs[..k + 1], locate, maxApiCalls).results == Reconcile(existing, vs, locate, maxApiCalls).results[..k + 1]
  {
    var out := Reconcile(existing, vs, locate, maxApiCalls).results;
    var before1 := Reconcile(existing, vs[..k], locate, maxApiCalls);
    var before2 := Reconcile(saved, vs[..k], locate, maxApiCalls);
    assert Reconcile(saved, vs[..k + 1], locate, maxApiCalls).results == before2.results + [out[k]] by {
      ResultAt(existing, vs, locate, maxApiCalls, k);
      StepAgain(existing, saved, locate, maxApiCalls, before1, before2, vs[k]);
      ResultAt(saved, vs, locate, maxApiCalls, k);
    }
    assert out[..k + 1] == out[..k] + [out[k]];
  }

  /** With distinct node keys among the validators, no later record shares the node key of record k. */
  lemma OutputDistinct(existing: map<string, Record>, vs: seq<Validator>, locate: string -> Option<Geo>, maxApiCalls: nat, k: nat)
    requires KeyedByNode(existing) && DistinctNodes(vs)
    requires k < |vs|
    ensures var out := Reconcile(existing, vs, locate, maxApiCalls).results;
      forall j :: k < j < |out| ==> RecordNode(out[j]) != RecordNode(out[k])
  {
    var out := Reconcile(existing, vs, locate, maxApiCalls).results;
    forall j | k < j < |out|
      ensures RecordNode(out[j]) != RecordNode(out[k])
    {
      Identity(existing, vs, locate, maxApiCalls, j);
      Identity(existing, vs, locate, maxApiCalls, k);
    }
  }

  /**
   * Feeding a run's output back in as the saved records, with a budget that
   * never runs out, reproduces the same output on every prefix.
   */
  lemma {:induction false} IdempotentPrefix(existing: map<string, Record>, vs: seq<Validator>, locate: string -> Option<Geo>, maxApiCalls: nat, n: nat)
    requires KeyedByNode(existing) && DistinctNodes(vs) && |vs| <= maxApiCalls
    requires n <= |vs|
    ensures var out := Reconcile(existing, vs, locate, maxApiCalls).results;
      Reconcile(Existing(out), vs[..n], locate, maxApiCalls).results == out[..n]
  {
    var out := Reconcile(existing, vs, locate, maxApiCalls).results;
    if n > 0 {
      var k := n - 1;
      IdempotentPrefix(existing, vs, locate, maxApiCalls, k);
      Identity(existing, vs, locate, maxApiCalls, k);
      OutputDistinct(existing, vs, locate, maxApiCalls, k);
      Keyed.LastWinsValue(out, RecordNode, RecordSelf, k);
      IdempotentStep(existing, Existing(out), vs, locate, maxApiCalls, k);
    }
  }

  lemma Idempotent(existing: map<string, Record>, vs: seq<Validator>, locate: string -> Option<Geo>, maxApiCalls: nat)
    requires KeyedByNode(existing) && DistinctNodes(vs) && |vs| <= maxApiCalls
    ensures var out := Reconcile(existing, vs, locate, maxApiCalls).results;
      Reconcile(Existing(out), vs, locate, maxApiCalls).results == out
  {
    IdempotentPrefix(existing, vs, locate, maxApiCalls, |vs|);
    assert vs[..|vs|] == vs;
  }

  /**
   * Whatever the geolocator and the budget of a later run, a record that came
   * out of this run with a truthy `lat` is pushed unchanged by a run that
   * loads this run's output: a located validator is never looked up again.
   */
  lemma NoReEnrichment(existing: map<string, Record>, vs: seq<Validator>, locate: string -> Option<Geo>, maxApiCalls: nat,
                       locate2: string -> Option<Geo>, maxApiCalls2: nat, k: nat)
    requires KeyedByNode(existing) && DistinctNodes(vs) && k < |vs|
    ensures var out := Reconcile(existing, vs, locate, maxApiCalls).results;
      HasLat(out[k]) ==> Reconcile(Existing(out), vs, locate2, maxApiCalls2).results[k] == out[k]
  {
    var out := Reconcile(existing, vs, locate, maxApiCalls).results;
    Identity(existing, vs, locate, maxApiCalls, k);
    OutputDistinct(existing, vs, locate, maxApiCalls, k);
    Keyed.LastWinsValue(out, RecordNode, RecordSelf, k);
    if HasLat(out[k]) {
      CacheHit(Existing(out), vs, locate2, maxApiCalls2, k);
    }
  }

  /**
   * Two new validators, nothing saved, a budget of one call and a geolocator
   * that knows the first address: the first is located, the second is
   * deferred bare, and exactly one call is made.
   */
  lemma OneCallScenario(g: Geo)
    ensures var a := Validator("A", "voteA", "addr1");
      var b := Validator("B", "voteB", "addr2");
      var locate := (ip: string) => if ip == "addr1" then Some(g) else None;
      Reconcile(map[], [a, b], locate, 1) == Run([Located(a, g), Bare(b)], 1, 1)
  {
  }

  // ---------------------------------------------------------------------
  // The imperative code.

  /** The loop at generate-geo.js:82-84 over the parsed file. */
  method LoadExisting(parsed: seq<Record>) returns (existing: map<string, Record>)
    ensures existing == Existing(parsed)
  {
    existing := map[];
    for i := 0 to |parsed|
      invariant existing == Keyed.LastWins(parsed[..i], RecordNode, RecordSelf)
    {
      var v := parsed[i];
      assert parsed[..i + 1][..i] == parsed[..i];
      existing := existing[v.nodePubkey := v];
    }
    assert parsed[..|parsed|] == parsed;
  }

  /** The loop at generate-geo.js:91-137. */
  method ReconcileLoop(validators: seq<Validator>, existing: map<string, Record>, locate: string -> Option<Geo>, maxApiCalls: nat)
    returns (results: seq<Record>, newCount: nat, apiCalls: nat)
    ensures Run(results, apiCalls, newCount) == Reconcile(existing, validators, locate, maxApiCalls)
    ensures |results| == |validators| && apiCalls <= maxApiCalls && newCount <= apiCalls
  {
    results := [];
    newCount := 0;
    apiCalls := 0;
    for i := 0 to |validators|
      invariant Run(results, apiCalls, newCount) == Reconcile(existing, validators[..i], locate, maxApiCalls)
    {
      var v := validators[i];
      assert validators[..i + 1][..i] == validators[..i];
      if v.nodePubkey in existing && HasLat(existing[v.nodePubkey]) {
        results := results + [existing[v.nodePubkey]];
        continue;
      }
      if apiCalls >= maxApiCalls {
        results := results + [Bare(v)];
        continue;
      }
      var geo := locate(v.ip);
      apiCalls := apiCalls + 1;
      if geo.Some? {
        results := results + [Located(v, geo.value)];
        newCount := newCount + 1;
      } else {
        results := results + [Bare(v)];
      }
    }
    assert validators[..|validators|] == validators;
  }

  /**
   * `main` without its I/O: the two RPC results, the saved records (empty when
   * the file is missing or unreadable) and the geolocator are inputs; the
   * records that would be written back are the output.
   */
  method GenerateGeo(clusterNodes: seq<ClusterNode>, current: seq<VoteAccount>, delinquent: seq<VoteAccount>,
                     prior: seq<Record>, locate: string -> Option<Geo>)
    returns (results: seq<Record>)
    ensures var validators := Directory.Join(clusterNodes, Directory.NodeToVote(current, delinquent));
      results == Reconcile(Existing(prior), validators, locate, MaxApiCalls).results
    ensures |results| <= |clusterNodes|
  {
    var validators := Directory.GetValidatorIPs(clusterNodes, current, delinquent);
    var existing := LoadExisting(prior);
    var newCount, apiCalls;
    results, newCount, apiCalls := ReconcileLoop(validators, existing, locate, MaxApiCalls);
  }
}
