/** What several components share. */
module Common {
  datatype Option<T> = None | Some(value: T)

  /** A function to lower case. */
  type Lower = string -> string

  /** Some number is not in a finite set. */
  lemma FreshNat(used: set<nat>) returns (n: nat)
    ensures n !in used
  {
    n := 0;
    var seen: set<nat> := {};
    while n in used
      invariant seen <= used && forall m | m in seen :: m < n
      decreases used - seen
    {
      seen := seen + {n};
      n := n + 1;
    }
  }

  lemma SliceOfSlice<T>(s: seq<T>, i: nat, j: nat, k: nat)
    requires i + k <= j <= |s|
    ensures s[i..j][..k] == s[i..i + k] && s[i..j][k..] == s[i + k..j]
  {
  }

  lemma Reassociate<T>(a: seq<T>, b: seq<T>, c: seq<T>)
    ensures a + b + c == a + (b + c)
  {
  }
}
