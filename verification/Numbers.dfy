/** Powers, the few facts about products the proofs need, and taking one element out of a sequence. */
module Numbers {

  function Power(b: nat, e: nat): (n: nat)
    ensures b > 0 ==> n > 0
  {
    if e == 0 then 1 else b * Power(b, e - 1)
  }

  lemma {:induction false} MulMonotone(a: nat, b: nat, c: nat)
    requires a <= b
    ensures a * c <= b * c
  {
  }

  lemma {:induction false} MulSuccessor(a: nat, c: nat)
    ensures (a + 1) * c == a * c + c
  {
  }

  lemma {:induction false} PowerMonotone(b: nat, e: nat, f: nat)
    requires b >= 1 && e <= f
    ensures 1 <= Power(b, e) <= Power(b, f)
    decreases f
  {
    if f > 0 {
      PowerMonotone(b, if e < f then e else e - 1, f - 1);
      MulMonotone(1, b, Power(b, f - 1));
    }
  }

  lemma {:induction false} MultisetRemove<T>(s: seq<T>, k: nat)
    requires k < |s|
    ensures multiset(s[..k] + s[k + 1..]) == multiset(s) - multiset{s[k]}
  {
    assert s == s[..k] + ([s[k]] + s[k + 1..]);
  }
}
