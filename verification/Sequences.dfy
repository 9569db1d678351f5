/** Small facts about sequences. */
module Sequences {

  lemma Associative<T>(a: seq<T>, b: seq<T>, c: seq<T>)
    ensures a + b + c == a + (b + c)
  {
  }

  lemma SliceOfDrop<T>(s: seq<T>, i: nat, n: nat)
    requires i + n <= |s|
    ensures s[i..][..n] == s[i..i + n] && s[i..][n..] == s[i + n..]
  {
  }

  lemma CutBehind<T>(a: seq<T>, b: seq<T>, n: nat)
    requires |a| <= n <= |a + b|
    ensures (a + b)[..n][|a|..] == b[..n - |a|]
  {
  }
}
