/** The least natural number below a bound that a set leaves out: what every first-fit search of the kernel finds. */
module Least {

  datatype Option<+T> = None | Some(value: T)

  ghost predicate IsLeastOutside(s: set<nat>, n: nat, k: nat) {
    k < n && k !in s && forall j: nat :: j < k ==> j in s
  }

  ghost function LeastOutside(s: set<nat>, n: nat): (r: Option<nat>)
    ensures r.Some? ==> IsLeastOutside(s, n, r.value)
    ensures r.None? ==> forall k: nat :: k < n ==> k in s
  {
    if k: nat :| k < n && k !in s then
      LeastExists(s, n, k);
      var k :| IsLeastOutside(s, n, k);
      Some(k)
    else
      None
  }

  lemma {:induction false} LeastExists(s: set<nat>, n: nat, k: nat)
    requires k < n && k !in s
    ensures exists j :: IsLeastOutside(s, n, j)
  {
    if j: nat :| j < k && j !in s {
      LeastExists(s, n, j);
    } else {
      assert IsLeastOutside(s, n, k);
    }
  }

  /** Two searches that satisfy the same description found the same number. */
  lemma LeastIsUnique(s: set<nat>, n: nat, k: nat)
    requires IsLeastOutside(s, n, k)
    ensures LeastOutside(s, n) == Some(k)
  {
    var r := LeastOutside(s, n);
    assert r.Some?;
    assert !(r.value < k) && !(k < r.value);
  }
}
