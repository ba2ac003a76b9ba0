# Validator geolocation: a Dafny model of `generate-geo.js`

`generate-geo.js` builds the file `validator-locations.json` for the X1
validator map. It works in two steps. First, `getValidatorIPs` joins the
cluster's gossip nodes with its vote accounts and takes each validator's IP
from its gossip address. Second, `main` merges those validators with the
records saved by the previous run and asks an IP-geolocation service about
the validators that have no usable saved location. At most `maxApiCalls = 45`
lookups are made per run.

The model has four modules:

- `Keyed` (keyed.dfy) models the "fill a plain object in a loop" idiom that
  the script uses twice: `nodeToVote` and `existing`. A later entry with the
  same key overwrites an earlier one.
- `Records` (records.dfy) holds the values: cluster nodes, vote accounts,
  validators, geolocation answers and saved records.
- `Directory` (directory.dfy) models `getValidatorIPs`. The method
  `GetValidatorIPs` has the source's two loops and is proved equal to the
  function `Join` over the map `NodeToVote`. The lemmas state what that join
  keeps, in what order, and which vote account wins.
- `Reconciliation` (reconciliation.dfy) models `main`. `LoadExisting` and
  `ReconcileLoop` are the source's loops. They are proved equal to the
  functions `Existing` and `Reconcile`. `Reconcile` is the loop's state
  (`results`, `apiCalls`, `newCount`) after a prefix of the validators. The
  lemmas state the cache, budget, order, counting and idempotence properties.
  `GenerateGeo` composes the pieces the way `main` does.

JavaScript truthiness is written out. A gossip address counts only when it is
present and non-empty. A vote key counts only when it is non-empty. A saved
record is reused only when its `lat` is present and non-zero (`HasLat`), as
the truthiness test at generate-geo.js:98 does. A saved record at latitude 0
is not reused. While budget remains it is looked up again. Once the budget is
spent, or if that lookup fails, it is written back bare and its saved location
is lost.

The geolocator is an oracle `locate: string -> Option<Geo>` passed in as a
parameter. `None` stands for every failed lookup: a non-success status, a
transport error, or a malformed reply. The RPC results and the saved records
are also parameters. A missing or unreadable file is the empty sequence.

## Model

| member | source | states |
|---|---|---|
| `Keyed.LastWinsKeys` | generate-geo.js:30-33 | a key is in the filled dictionary exactly when some entry carries it |
| `Keyed.LastWinsValue` | generate-geo.js:30-33 | an entry that no later entry overwrites is the value stored under its key (last write wins) |
| `Keyed.LastWinsOrigin` | generate-geo.js:82-84 | every stored value was written by an entry with that key |
| `Keyed.LastWins` | generate-geo.js:30-33 | definition, no contract: the dictionary left by the fill loops at :30-33 and :82-84, later entries overwriting earlier ones; its properties are `LastWinsKeys`, `LastWinsValue` and `LastWinsOrigin` |
| `Directory.NodeToVote` | generate-geo.js:24-33 | definition, no contract: `nodeToVote` filled from `[...current, ...delinquent]`; its properties are `NodeToVoteKeys`, `DelinquentWins` and `CurrentKept` |
| `Directory.Qualifies` | generate-geo.js:38 | definition, no contract: the filter `node.gossip && nodeToVote[node.pubkey]` read as truthiness; used by `Join` and `JoinMember` |
| `Reconciliation.Existing` | generate-geo.js:82-84 | definition, no contract: `existing` filled from the parsed records keyed by `nodePubkey`; its property is `ExistingKeyedByNode` |
| `Reconciliation.Cached` | generate-geo.js:98 | definition, no contract: the saved record when `existing[v.nodePubkey] && existing[v.nodePubkey].lat` holds, otherwise none; its property is `CacheHit` |
| `Reconciliation.Attempt` | generate-geo.js:119-133 | definition, no contract: the merged record after a successful lookup, the bare one after a failed lookup; its property is `Looked` |
| `Reconciliation.Step` | generate-geo.js:96-133 | definition, no contract: one pass of the loop body, with the cache check first, then the budget check, then the lookup; its properties are `CacheHit`, `Deferred` and `Looked` |
| `Records.HasLat` | generate-geo.js:98 | definition, no contract: the truthiness of `.lat` (present and non-zero); used by `Cached` |
| `Records.Bare` | generate-geo.js:107-111 | definition, no contract: the record with only `nodePubkey`, `votePubkey` and `ip`, pushed at :107-111 and :128-132 |
| `Records.Located` | generate-geo.js:120-125 | definition, no contract: the validator's three fields merged with the lookup's location fields |
| `Directory.ValidatorOf` | generate-geo.js:40-44 | definition, no contract: the `{nodePubkey, votePubkey, ip}` pushed for a qualifying node |
| `Directory.IpOf` | generate-geo.js:39 | the IP has no `:`, is a prefix of the gossip address, and is followed there by `:` unless it is the whole address |
| `Directory.Join` | generate-geo.js:36-46 | no more validators than cluster nodes (one per node in order is `JoinAppend`); each has a known, non-empty vote key equal to `nodeToVote[nodePubkey]` and an IP without `:` |
| `Directory.JoinAppend` | generate-geo.js:37-46 | the join distributes over concatenation of the node list, so it keeps cluster-node order (a subsequence) |
| `Directory.JoinMember` | generate-geo.js:38-44 | a validator is in the join if and only if a node with a truthy gossip and a known vote key produces it |
| `Directory.JoinDistinct` | generate-geo.js:37-46 | cluster nodes with distinct pubkeys yield validators with distinct node keys |
| `Directory.NodeToVoteKeys` | generate-geo.js:24-33 | the node-to-vote map covers exactly the nodes named by current or delinquent accounts |
| `Directory.DelinquentWins` | generate-geo.js:24-33 | the last delinquent account for a node overrides any current account for it |
| `Directory.CurrentKept` | generate-geo.js:24-33 | a current account's vote key is used when no later account names the same node |
| `Directory.GetValidatorIPs` | generate-geo.js:20-49 | the two loops compute exactly `Join(clusterNodes, NodeToVote(current, delinquent))` |
| `Reconciliation.ExistingKeyedByNode` | generate-geo.js:82-84 | after loading, every saved record is filed under its own `nodePubkey` |
| `Reconciliation.Reconcile` | generate-geo.js:91-137 | one result per validator, `apiCalls` never exceeds the budget or the number of validators, and `newCount <= apiCalls` |
| `Reconciliation.CacheHit` | generate-geo.js:98-101 | a validator whose saved record has a truthy `lat` gets that record unchanged, whatever the budget, and the step costs no call |
| `Reconciliation.Identity` | generate-geo.js:96-133 | the record at position k is about validator k; without a usable saved record it carries validator k's vote key and IP, and any location it has is the geolocator's answer for that IP |
| `Reconciliation.DroppedPrior` | generate-geo.js:91-133 | a saved record whose node is not among the validators does not appear in the output |
| `Reconciliation.CallsUsed` | generate-geo.js:93-117 | `apiCalls` equals the smaller of the budget and the number of validators without a usable saved record |
| `Reconciliation.Deferred` | generate-geo.js:104-112 | once earlier validators needing a lookup have used the budget, a validator without a usable record is emitted bare |
| `Reconciliation.Looked` | generate-geo.js:115-133 | while budget remains, a validator without a usable record gets the located record or, on a failed lookup, a bare one; the call is counted either way |
| `Reconciliation.NewCountExact` | generate-geo.js:116-133 | `newCount` equals the number of validators without a usable saved record whose result carries a location |
| `Reconciliation.Idempotent` | generate-geo.js:96-133 | with distinct node keys among the validators, saved records filed under their own node key, a budget that cannot run out and the same geolocator in both runs, feeding the output back in as the saved records reproduces the output |
| `Reconciliation.NoReEnrichment` | generate-geo.js:96-101 | with distinct node keys among the validators and saved records filed under their own node key, for any geolocator and any budget, a record with a truthy `lat` from one run is pushed unchanged at the same position by a run that loads that output, so it is never looked up again |
| `Reconciliation.OneCallScenario` | generate-geo.js:96-133 | two new validators, nothing saved, budget 1, a lookup that succeeds for the first: located first, bare second, one call, one new location |
| `Reconciliation.LoadExisting` | generate-geo.js:78-88 | the loading loop computes exactly `Existing(parsed)` (later records with the same node win) |
| `Reconciliation.ReconcileLoop` | generate-geo.js:91-137 | the loop's `results`, `apiCalls` and `newCount` are exactly `Reconcile(...)`; one result per validator, `apiCalls <= maxApiCalls`, `newCount <= apiCalls` |
| `Reconciliation.GenerateGeo` | generate-geo.js:72-144 | the records written back are the reconciliation of the joined validators against the saved records with budget 45, and there are at most as many as cluster nodes |

## Left out

- `rpcCall` (generate-geo.js:5-18) is an HTTP JSON-RPC call. The node list and the two vote-account lists are parameters of `GetValidatorIPs`.
- `geolocateIP` (generate-geo.js:51-70) is an HTTP lookup with its own error handling. It is the oracle `locate`, so the model assumes one answer per IP within a run.
- The file read, `JSON.parse`, `JSON.stringify` and the file write (generate-geo.js:79-88, 142) are I/O. The parsed array is the parameter `prior`, which is empty for a missing or unparseable file, and the output is the returned sequence. A `null` element in the parsed array would make the source's loop throw partway and keep the records loaded so far. That case is not modelled.
- The 100 ms `setTimeout` pause, the `console.log` lines and `main().catch` (generate-geo.js:73-146) only affect timing and output.
- `lat` and `lon` are floating-point numbers in the source. They are integers here, and only `lat != 0` is used. `NaN` is not modelled.
- Records are fixed-shape values. A saved record with missing identity fields, or with some location fields and not others, is not modelled.
- A missing or `null` `votePubkey` is modelled as the empty string, which is falsy the same way. A `null` gossip address is `None`. A missing or `null` `pubkey` or `nodePubkey` would become the object key `"undefined"` or `"null"` in the source; that case is not modelled.
- If an RPC reply has no `result`, reading `voteAccounts.current` (generate-geo.js:25) or looping over `clusterNodes` (:37) throws, and `main` ends without writing the file. The model's list parameters cannot express that case.
- The plain objects `nodeToVote` and `existing` also inherit prototype properties such as `constructor`. A node pubkey equal to such a name would read an inherited value. Keys here are only the stored ones.
- Reconciliation.Idempotent: both runs share one geolocator `locate`. With a different geolocator in the second run, a record from a failed lookup or with `lat` 0 is looked up again and may come back different. `NoReEnrichment` states the part that holds for any geolocator.
- Reconciliation.NoReEnrichment: holds only when node keys are distinct among the validators. When a node key repeats, the source serves the last saved record for that key at every position with that key, so neither this lemma nor `Idempotent` holds there. `JoinDistinct` gives distinct keys whenever the cluster pubkeys are distinct.
