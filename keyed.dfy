/**
 * The dictionary that a loop of the form
 *   `const d = {}; for (const e of s) { d[key(e)] = val(e); }`
 * leaves behind. generate-geo.js fills two dictionaries this way: `nodeToVote`
 * from the vote accounts and `existing` from the previously saved records.
 * A later entry with the same key overwrites an earlier one.
 */
module Keyed {

  /** The dictionary after every entry of `s` has been stored, in order. */
  function LastWins<T, V>(s: seq<T>, key: T -> string, val: T -> V): map<string, V>
  {
    if s == [] then map[]
    else LastWins(s[..|s| - 1], key, val)[key(s[|s| - 1]) := val(s[|s| - 1])]
  }

  /** The keys of the dictionary are exactly the keys of the entries. */
  lemma {:induction false} LastWinsKeys<T, V>(s: seq<T>, key: T -> string, val: T -> V, k: string)
    ensures k in LastWins(s, key, val) <==> exists i :: 0 <= i < |s| && key(s[i]) == k
  {
    if s != [] {
      var init := s[..|s| - 1];
      LastWinsKeys(init, key, val, k);
      if exists i :: 0 <= i < |init| && key(init[i]) == k {
        var i :| 0 <= i < |init| && key(init[i]) == k;
        assert key(s[i]) == k;
      }
      if exists i :: 0 <= i < |s| && key(s[i]) == k {
        var i :| 0 <= i < |s| && key(s[i]) == k;
        if i < |init| {
          assert key(init[i]) == k;
        }
      }
    }
  }

  /** An entry that no later entry overwrites is the one the dictionary holds for its key. */
  lemma {:induction false} LastWinsValue<T, V>(s: seq<T>, key: T -> string, val: T -> V, i: nat)
    requires i < |s|
    requires forall j :: i < j < |s| ==> key(s[j]) != key(s[i])
    ensures key(s[i]) in LastWins(s, key, val)
    ensures LastWins(s, key, val)[key(s[i])] == val(s[i])
  {
    var init := s[..|s| - 1];
    if i < |init| {
      assert init[i] == s[i];
      assert key(s[|s| - 1]) != key(s[i]);
      LastWinsValue(init, key, val, i);
    }
  }

  /** Every value the dictionary holds was stored by an entry with that key. */
  lemma {:induction false} LastWinsOrigin<T, V>(s: seq<T>, key: T -> string, val: T -> V, k: string)
    requires k in LastWins(s, key, val)
    ensures exists i :: 0 <= i < |s| && key(s[i]) == k && LastWins(s, key, val)[k] == val(s[i])
  {
    var init := s[..|s| - 1];
    if key(s[|s| - 1]) == k {
      assert key(s[|s| - 1]) == k && LastWins(s, key, val)[k] == val(s[|s| - 1]);
    } else {
      LastWinsOrigin(init, key, val, k);
      var i :| 0 <= i < |init| && key(init[i]) == k && LastWins(init, key, val)[k] == val(init[i]);
      assert s[i] == init[i];
    }
  }
}
