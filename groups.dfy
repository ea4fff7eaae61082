/**
 * Module groups. Both the database import and the static-file generator put
 * a deadline into the group whose key is the first, in a fixed order, that
 * the stripped, upper-cased module code starts with.
 */
module ModuleGroups {
  import opened Base
  import opened Text

  /** The group keys, in the order both scripts try them. */
  const Keys: seq<string> := ["CM1", "CM2", "CS1", "CS2", "CB", "CP1", "CP2", "CP3", "SP", "SA"]

  /** The first key at index `i` or later that `u` starts with. */
  function MatchFrom(u: string, i: nat): Option<string>
    decreases |Keys| - i
  {
    if i >= |Keys| then None
    else if StartsWith(u, Keys[i]) then Some(Keys[i])
    else MatchFrom(u, i + 1)
  }

  /** The group of a module code, or `None` when no key matches. */
  function Classify(moduleCode: string): Option<string>
  {
    MatchFrom(Upper(Strip(moduleCode)), 0)
  }

  /** No key is a prefix of another key. */
  lemma KeysPrefixFree()
    ensures forall i, j :: 0 <= i < |Keys| && 0 <= j < |Keys| && i != j ==> !StartsWith(Keys[j], Keys[i])
  {
    forall i, j | 0 <= i < |Keys| && 0 <= j < |Keys| && i != j
      ensures !StartsWith(Keys[j], Keys[i])
    {
      var a, b := Keys[i], Keys[j];
      assert |a| > |b| || a[0] != b[0] || a[1] != b[1] || (|a| == 3 && a[2] != b[2]);
      if |a| <= |b| {
        assert b[..|a|][0] == b[0] && b[..|a|][1] == b[1];
        assert |a| == 3 ==> b[..|a|][2] == b[2];
      }
    }
  }

  /** Two prefixes of one string: the shorter is a prefix of the longer. */
  lemma PrefixOfPrefix(u: string, p: string, q: string)
    requires StartsWith(u, p) && StartsWith(u, q) && |p| <= |q|
    ensures StartsWith(q, p)
  {
    assert q[..|p|] == u[..|q|][..|p|] == u[..|p|];
  }

  /** At most one key is a prefix of any string. */
  lemma AtMostOneKey(u: string, i: nat, j: nat)
    requires i < |Keys| && j < |Keys|
    requires StartsWith(u, Keys[i]) && StartsWith(u, Keys[j])
    ensures i == j
  {
    KeysPrefixFree();
    if |Keys[i]| <= |Keys[j]| {
      PrefixOfPrefix(u, Keys[i], Keys[j]);
    } else {
      PrefixOfPrefix(u, Keys[j], Keys[i]);
    }
  }

  lemma {:induction false} MatchFromSound(u: string, i: nat)
    requires MatchFrom(u, i).Some?
    ensures exists j :: i <= j < |Keys| && Keys[j] == MatchFrom(u, i).value && StartsWith(u, Keys[j])
    decreases |Keys| - i
  {
    if !StartsWith(u, Keys[i]) {
      MatchFromSound(u, i + 1);
    }
  }

  lemma {:induction false} MatchFromComplete(u: string, i: nat, j: nat)
    requires i <= j < |Keys| && StartsWith(u, Keys[j])
    ensures MatchFrom(u, i) == Some(Keys[j])
    decreases j - i
  {
    if i < j {
      if StartsWith(u, Keys[i]) {
        AtMostOneKey(u, i, j);
      }
      MatchFromComplete(u, i + 1, j);
    }
  }

  /**
   * A module belongs to group `k` exactly when `k` is one of the ten keys
   * and the stripped, upper-cased module code starts with it; since no key
   * is a prefix of another, the order in which keys are tried never matters.
   */
  lemma ClassifySpec(moduleCode: string, k: string)
    ensures Classify(moduleCode) == Some(k) <==> k in Keys && StartsWith(Upper(Strip(moduleCode)), k)
  {
    var u := Upper(Strip(moduleCode));
    if Classify(moduleCode) == Some(k) {
      MatchFromSound(u, 0);
    }
    if k in Keys && StartsWith(u, k) {
      var j :| 0 <= j < |Keys| && Keys[j] == k;
      MatchFromComplete(u, 0, j);
    }
  }

  /** The loop of `import_from_tsv` that looks for the module's group. */
  method FindModuleGroup(moduleCode: string) returns (group: Option<string>)
    ensures group == Classify(moduleCode)
  {
    var u := Upper(Strip(moduleCode));
    var i := 0;
    while i < |Keys|
      invariant 0 <= i <= |Keys|
      invariant MatchFrom(u, i) == MatchFrom(u, 0)
    {
      if StartsWith(u, Keys[i]) {
        group := Some(Keys[i]);
        return;
      }
      i := i + 1;
    }
    group := None;
  }
}
