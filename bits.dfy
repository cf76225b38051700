/** Bit strings as the page extractor sees them: a `seq<bool>` indexed
    most-significant bit first, and its big-endian unsigned value (the
    `.uint` of a bit array). */
module Bits {

  /** 2 to the power `n`. */
  function Pow2(n: nat): (r: nat)
    ensures r >= 1
  {
    if n == 0 then 1 else 2 * Pow2(n - 1)
  }

  /** Big-endian unsigned value of `s`: `s[0]` is the most significant bit.
      An `n`-bit string always denotes a value below 2^n. */
  function Uint(s: seq<bool>): (r: nat)
    ensures r < Pow2(|s|)
  {
    if |s| == 0 then 0
    else 2 * Uint(s[..|s| - 1]) + (if s[|s| - 1] then 1 else 0)
  }

  /** Some bit of `s` is set. */
  predicate AnySet(s: seq<bool>)
  {
    exists i :: 0 <= i < |s| && s[i]
  }

  /** The value of a bit string is non-zero exactly when one of its bits is set. */
  lemma {:induction false} UintNonZeroIff(s: seq<bool>)
    ensures Uint(s) != 0 <==> AnySet(s)
  {
    if |s| > 0 {
      var init := s[..|s| - 1];
      UintNonZeroIff(init);
      if AnySet(init) {
        var i :| 0 <= i < |init| && init[i];
        assert s[i];
      }
      if AnySet(s) && !s[|s| - 1] {
        var i :| 0 <= i < |s| && s[i];
        assert init[i];
      }
    }
  }

  /** Concatenation shifts the leading part left by the width of the trailing one. */
  lemma {:induction false} UintAppend(a: seq<bool>, b: seq<bool>)
    ensures Uint(a + b) == Uint(a) * Pow2(|b|) + Uint(b)
  {
    if |b| == 0 {
      assert a + b == a;
    } else {
      var b' := b[..|b| - 1];
      assert (a + b)[..|a + b| - 1] == a + b';
      assert (a + b)[|a + b| - 1] == b[|b| - 1];
      UintAppend(a, b');
      var x, p := Uint(a), Pow2(|b'|);
      assert Pow2(|b|) == 2 * p;
      calc {
        Uint(a + b);
        2 * Uint(a + b') + (if b[|b| - 1] then 1 else 0);
        2 * (x * p + Uint(b')) + (if b[|b| - 1] then 1 else 0);
        { MulDouble(x, p); }
        x * Pow2(|b|) + Uint(b);
      }
    }
  }

  lemma MulDouble(x: nat, p: nat)
    ensures 2 * (x * p) == x * (2 * p)
  {
  }
}
