/**
  compareValues: the CPU transform checked against the device's values
  element by element with the tolerance EPSILON2 on both the real and the
  imaginary part. The device buffer is taken as a sequence of complex values;
  every "Discrepancy at (i)" line becomes index i of the returned list, and
  "OK!" is printed exactly when the returned flag is true.
 */
module Comparison {
  import opened ComplexNumbers

  const Epsilon2: real := 0.001

  /** Neither component differs by more than EPSILON2. */
  predicate Agree(cpu: Complex, gpu: Complex)
  {
    Abs(cpu.re - gpu.re) <= Epsilon2 && Abs(cpu.im - gpu.im) <= Epsilon2
  }

  /** The OK flag after the first i indices: it starts at 1 and is cleared by
      every index that disagrees. */
  function AgreeBelow(cpu: seq<Complex>, gpu: seq<Complex>, i: int): (ok: bool)
    requires i <= |cpu| && i <= |gpu|
    ensures ok <==> forall j :: 0 <= j < i ==> Agree(cpu[j], gpu[j])
  {
    if i <= 0 then true else AgreeBelow(cpu, gpu, i - 1) && Agree(cpu[i - 1], gpu[i - 1])
  }

  /** compareValues(cpu, gpu, n). ok is the final OK flag and discrepancies the
      indices reported, in the order they are printed. Neither buffer is
      written (both are values here). */
  method CompareValues(cpu: seq<Complex>, gpu: seq<Complex>, n: int) returns (ok: bool, discrepancies: seq<nat>)
    requires n <= |cpu| && n <= |gpu|
    ensures ok <==> forall i :: 0 <= i < n ==> Agree(cpu[i], gpu[i])
    ensures ok <==> discrepancies == []
    ensures forall d :: 0 <= d < |discrepancies| ==>
      discrepancies[d] < n && !Agree(cpu[discrepancies[d]], gpu[discrepancies[d]])
    ensures forall i :: 0 <= i < n && !Agree(cpu[i], gpu[i]) ==> i in discrepancies
    ensures forall d, e :: 0 <= d < e < |discrepancies| ==> discrepancies[d] < discrepancies[e]
  {
    ok := true;
    discrepancies := [];
    var i := 0;
    while i < n
      invariant 0 <= i <= if n < 0 then 0 else n
      invariant ok == AgreeBelow(cpu, gpu, i)
      invariant ok <==> discrepancies == []
      invariant forall d :: 0 <= d < |discrepancies| ==>
        discrepancies[d] < i && !Agree(cpu[discrepancies[d]], gpu[discrepancies[d]])
      invariant forall j :: 0 <= j < i && !Agree(cpu[j], gpu[j]) ==> j in discrepancies
      invariant forall d, e :: 0 <= d < e < |discrepancies| ==> discrepancies[d] < discrepancies[e]
    {
      if Abs(cpu[i].re - gpu[i].re) > Epsilon2 || Abs(cpu[i].im - gpu[i].im) > Epsilon2 {
        ok := false;
        discrepancies := discrepancies + [i];
      }
      i := i + 1;
    }
  }
}
