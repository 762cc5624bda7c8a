/** The finite impulse response filter over exact reals: a delay line, and output that may
    overwrite the input. */
module Fir {

  /** The input as a signal: zero before its start and after its end. */
  function At(x: seq<real>, k: int): real {
    if 0 <= k < |x| then x[k] else 0.0
  }

  /** The first m terms of the sum of coeff[i] * x[n - i]. */
  function Sum(coeff: seq<real>, x: seq<real>, n: int, m: nat): real
    requires m <= |coeff|
  {
    if m == 0 then 0.0 else Sum(coeff, x, n, m - 1) + At(x, n - (m - 1)) * coeff[m - 1]
  }

  function Convolution(coeff: seq<real>, x: seq<real>, n: int): real {
    Sum(coeff, x, n, |coeff|)
  }

  /** The delay line holds the last samples, the newest first. */
  predicate Delayed(buffer: seq<real>, x: seq<real>, n: int) {
    forall i | 0 <= i < |buffer| :: buffer[i] == At(x, n - i)
  }

  /** The output computed from the delay line. */
  method Weigh(buffer: array<real>, coeff: array<real>, ghost x: seq<real>, ghost n: int) returns (msum: real)
    requires buffer.Length == coeff.Length && Delayed(buffer[..], x, n)
    ensures msum == Convolution(coeff[..], x, n)
  {
    msum := 0.0;
    for i := 0 to coeff.Length
      invariant msum == Sum(coeff[..], x, n, i)
    {
      assert buffer[i] == buffer[..][i];
      msum := msum + buffer[i] * coeff[i];
    }
  }

  /** Make room for the next sample. */
  method Shift(buffer: array<real>)
    requires buffer.Length > 0
    modifies buffer
    ensures buffer[..] == old([buffer[0]] + buffer[..buffer.Length-1])
  {
    for i := buffer.Length - 1 downto 0
      invariant forall k | 0 <= k <= i :: buffer[k] == old(buffer[k])
      invariant forall k | i < k < buffer.Length :: buffer[k] == old(buffer[k-1])
    {
      buffer[i+1] := buffer[i];
    }
  }

  lemma DelayedNext(buffer: seq<real>, x: seq<real>, n: int)
    requires buffer != [] && Delayed(buffer, x, n)
    ensures Delayed([At(x, n + 1)] + buffer[..|buffer|-1], x, n + 1)
  {
  }

  /** Take in the next sample. */
  method TakeIn(buffer: array<real>, sample: real, ghost x: seq<real>, ghost n: int)
    requires buffer.Length > 0 && Delayed(buffer[..], x, n) && sample == At(x, n + 1)
    modifies buffer
    ensures Delayed(buffer[..], x, n + 1)
  {
    ghost var line := buffer[..];
    DelayedNext(line, x, n);
    hide Delayed;
    Shift(buffer);
    buffer[0] := sample;
    assert buffer[..] == [sample] + line[..|line|-1];
  }

  /** float_fir_filter: the convolution, also in place. The source reads one sample beyond the
      length, and never uses it. */
  method FloatFirFilter(input: array<real>, output: array<real>, length: int, coeff: array<real>, noMemory: bool)
    returns (r: int)
    requires coeff.Length > 0 && output != coeff
    requires input.Length > length && input.Length > 0 && output.Length >= length
    modifies output
    ensures r == if noMemory then -1 else 0
    ensures forall k | 0 <= k < output.Length ::
      output[k] == (if k < length && !noMemory then Convolution(coeff[..], old(input[..]), k) else old(output[k]))
  {
    if noMemory {
      return -1;
    }
    ghost var x := input[..];
    var buffer := new real[coeff.Length](i => 0.0);
    buffer[0] := input[0];
    assert Delayed(buffer[..], x, 0);
    hide Delayed, Convolution;
    var n := 0;
    while n < length
      invariant 0 <= n && (n == 0 || n <= length) && Delayed(buffer[..], x, n)
      invariant forall k | n <= k < input.Length :: input[k] == x[k]
      invariant forall k | 0 <= k < output.Length ::
        output[k] == (if k < n then Convolution(coeff[..], x, k) else old(output[k]))
    {
      output[n] := Weigh(buffer, coeff, x, n);
      TakeIn(buffer, input[n + 1], x, n);
      n := n + 1;
    }
    r := 0;
  }

  // ----- The convolution -----

  /** The sum over all ways to divide n among the two signals. */
  function Divided(a: seq<real>, b: seq<real>, n: int, m: nat): real {
    if m == 0 then 0.0 else Divided(a, b, n, m - 1) + At(b, n - (m - 1)) * At(a, m - 1)
  }

  lemma {:induction false} SumIsDivided(a: seq<real>, b: seq<real>, n: int, m: nat)
    ensures Divided(a, b, n, m) == Sum(a, b, n, if m < |a| then m else |a|)
    decreases m
  {
    if m > 0 {
      SumIsDivided(a, b, n, m - 1);
    }
  }

  lemma {:induction false} NothingBeforeStart(a: seq<real>, b: seq<real>, n: nat, m: nat)
    requires m > n
    ensures Divided(a, b, n, m) == Divided(a, b, n, n + 1)
    decreases m
  {
    if m > n + 1 {
      NothingBeforeStart(a, b, n, m - 1);
    }
  }

  lemma {:induction false} Reversed(a: seq<real>, b: seq<real>, n: nat, m: nat)
    requires m <= n + 1
    ensures Divided(b, a, n, n + 1) == Divided(b, a, n, n + 1 - m) + Divided(a, b, n, m)
    decreases m
  {
    if m > 0 {
      Reversed(a, b, n, m - 1);
      assert At(a, n - (n + 1 - m)) * At(b, n + 1 - m) == At(b, n - (m - 1)) * At(a, m - 1);
    }
  }

  lemma ConvolutionIsDivided(a: seq<real>, b: seq<real>, n: nat)
    ensures Convolution(a, b, n) == Divided(a, b, n, n + 1)
  {
    var m := if |a| < n + 1 then n + 1 else |a|;
    SumIsDivided(a, b, n, m);
    NothingBeforeStart(a, b, n, m);
  }

  /** Coefficients and input play the same part. */
  lemma ConvolutionCommutes(a: seq<real>, b: seq<real>, n: nat)
    ensures Convolution(a, b, n) == Convolution(b, a, n)
  {
    ConvolutionIsDivided(a, b, n);
    ConvolutionIsDivided(b, a, n);
    Reversed(a, b, n, n + 1);
  }

  /** A delayed input gives a delayed output. */
  lemma {:induction false} DelayCommutes(coeff: seq<real>, x: seq<real>, n: int, m: nat)
    requires m <= |coeff|
    ensures Sum(coeff, [0.0] + x, n + 1, m) == Sum(coeff, x, n, m)
    decreases m
  {
    if m > 0 {
      DelayCommutes(coeff, x, n, m - 1);
    }
  }
}
