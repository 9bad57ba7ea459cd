/**
  Prefixes and repetitions of sequences: a repeat count in a FORMAT, format
  reversion and RESHAPE's PAD all go over one list again and again.
 */
module Repetition {
  import opened Arith

  /** s written out n times. */
  function Copies<T>(s: seq<T>, n: nat): seq<T> {
    if n == 0 then [] else s + Copies(s, n - 1)
  }

  /** At most the first k elements. */
  function Prefix<T>(s: seq<T>, k: nat): seq<T> {
    if |s| <= k then s else s[..k]
  }

  lemma {:induction false} CopiesLength<T>(s: seq<T>, n: nat)
    ensures |Copies(s, n)| == n * |s|
    ensures s != [] ==> |Copies(s, n)| >= n
    decreases n
  {
    if n > 0 {
      CopiesLength(s, n - 1);
      DistributePred(|s|, n);
    }
  }

  /** Element k of the repetition is the element of s at the remainder. */
  lemma {:induction false} CopiesAt<T>(s: seq<T>, n: nat, k: nat)
    requires s != [] && k < n * |s|
    ensures k < |Copies(s, n)| && Copies(s, n)[k] == s[k % |s|]
    decreases n
  {
    CopiesLength(s, n);
    if n > 0 {
      if k < |s| {
        DivMod(k, |s|, 0, k);
      } else {
        DistributePred(|s|, n);
        CopiesAt(s, n - 1, k - |s|);
        var q, r := Euclid(k - |s|, |s|);
        DistributePred(|s|, q);
        DivMod(k, |s|, q + 1, r);
      }
    }
  }

  lemma {:induction false} CopiesGrow<T>(s: seq<T>, m: nat, n: nat)
    requires m <= n
    ensures Copies(s, m) <= Copies(s, n)
    decreases n
  {
    if m > 0 {
      CopiesGrow(s, m - 1, n - 1);
    }
  }

  lemma {:induction false} PrefixConcat<T>(a: seq<T>, b: seq<T>, k: nat)
    ensures |a| >= k ==> Prefix(a + b, k) == Prefix(a, k) + []
    ensures |a| < k ==> Prefix(a + b, k) == a + Prefix(b, k - |a|)
  {
  }

  /** How often s is written out does not matter once it is often enough. */
  lemma {:induction false} PrefixOfCopies<T>(s: seq<T>, m: nat, n: nat, k: nat)
    requires s != [] && k <= m <= n
    ensures Prefix(Copies(s, m), k) == Prefix(Copies(s, n), k)
  {
    CopiesGrow(s, m, n);
    CopiesLength(s, m);
    CopiesLength(s, n);
  }

  /** The first k elements of `lead` followed by s over and over. */
  function Cycled<T>(lead: seq<T>, s: seq<T>, k: nat): seq<T> {
    Prefix(lead + Copies(s, k), k)
  }

  lemma {:induction false} CycledAt<T>(lead: seq<T>, s: seq<T>, k: nat, i: nat)
    requires s != [] && i < k
    ensures |Cycled(lead, s, k)| == k
    ensures Cycled(lead, s, k)[i] == if i < |lead| then lead[i] else s[(i - |lead|) % |s|]
  {
    CopiesLength(s, k);
    if i >= |lead| {
      CopiesAt(s, k, i - |lead|);
    }
  }

  lemma {:induction false} CycledLength<T>(lead: seq<T>, s: seq<T>, k: nat)
    requires s != []
    ensures |Cycled(lead, s, k)| == k
  {
    CopiesLength(s, k);
  }

  /** After one turn the cycle starts again. */
  lemma {:induction false} CycledTurn<T>(s: seq<T>, k: nat)
    requires s != []
    ensures |s| < k ==> Cycled([], s, k) == s + Cycled([], s, k - |s|)
    ensures |s| >= k ==> Cycled([], s, k) == Prefix(s, k)
  {
    hide Prefix;
    assert [] + Copies(s, k) == Copies(s, k);
    if k > 0 {
      PrefixConcat(s, Copies(s, k - 1), k);
      if |s| < k {
        assert [] + Copies(s, k - |s|) == Copies(s, k - |s|);
        PrefixOfCopies(s, k - |s|, k - 1, k - |s|);
      }
    } else {
      PrefixNone(s);
      PrefixNone(Copies(s, 0));
    }
  }

  lemma {:induction false} PrefixNone<T>(s: seq<T>)
    ensures Prefix(s, 0) == []
  {
  }

  lemma {:induction false} CycledConcat<T>(a: seq<T>, lead: seq<T>, s: seq<T>, k: nat)
    requires s != []
    ensures |a| >= k ==> Cycled(a + lead, s, k) == Prefix(a, k)
    ensures |a| < k ==> Cycled(a + lead, s, k) == a + Cycled(lead, s, k - |a|)
  {
    hide Copies, Prefix;
    assert (a + lead) + Copies(s, k) == a + (lead + Copies(s, k));
    PrefixConcat(a, lead + Copies(s, k), k);
    if |a| < k {
      var n := k - |a|;
      PrefixConcat(lead, Copies(s, k), n);
      PrefixConcat(lead, Copies(s, n), n);
      if |lead| < n {
        PrefixOfCopies(s, n, k, n - |lead|);
      }
    }
  }
}
