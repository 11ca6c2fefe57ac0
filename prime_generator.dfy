/**
 * `prime_generation` (RSA/main.py): draw `getrandbits(bits) | 1` until
 * `is_prime` accepts. The draws and the witnesses for each candidate are
 * finite parameters; when they run out without a success no prime is
 * returned, where the source would keep drawing.
 */
module PrimeGenerator {
  import opened NumberTheory
  import opened Wrappers
  import opened Primality

  /** `x | 1` for a non-negative x. */
  function SetLowBit(x: nat): nat
  {
    if x % 2 == 0 then x + 1 else x
  }

  /** Forcing the low bit keeps an odd result within `bits` bits, unless it yields 1 from bits = 0. */
  lemma SetLowBitBelow(x: nat, bits: nat)
    requires x < Pow(2, bits) && SetLowBit(x) != 1
    ensures SetLowBit(x) % 2 == 1 && SetLowBit(x) < Pow(2, bits)
  {
    if x % 2 == 0 && bits > 0 {
      var half := Pow(2, bits - 1);
      assert Pow(2, bits) == 2 * half;
      EvenBelowEven(x, half);
    }
  }

  lemma EvenBelowEven(x: int, half: int)
    requires x % 2 == 0 && x < 2 * half
    ensures x + 1 < 2 * half
  {
  }

  /** The first candidate, from index `from` on, that `is_prime` accepts. */
  function FirstAccepted(draws: seq<nat>, rounds: seq<seq<int>>, from: nat): (r: Option<nat>)
    requires |rounds| == |draws| && from <= |draws|
    ensures r.Some? ==> r.value % 2 == 1 && r.value >= 3
    decreases |draws| - from
  {
    if from == |draws| then None
    else if MillerRabin(SetLowBit(draws[from]), rounds[from]) then Some(SetLowBit(draws[from]))
    else FirstAccepted(draws, rounds, from + 1)
  }

  /** `prime_generation(bits)` over the given draws and witness rounds. */
  method PrimeGeneration(bits: nat, draws: seq<nat>, rounds: seq<seq<int>>) returns (p: Option<nat>)
    requires |rounds| == |draws|
    requires forall i :: 0 <= i < |draws| ==> draws[i] < Pow(2, bits)
    requires forall i :: 0 <= i < |draws| ==> ValidWitnesses(SetLowBit(draws[i]), rounds[i])
    ensures p == FirstAccepted(draws, rounds, 0)
    ensures p.Some? ==> p.value % 2 == 1 && 3 <= p.value < Pow(2, bits)
    ensures p.Some? ==> exists i :: 0 <= i < |draws| && p.value == SetLowBit(draws[i]) && MillerRabin(p.value, rounds[i])
    ensures p.None? <==> forall i :: 0 <= i < |draws| ==> !MillerRabin(SetLowBit(draws[i]), rounds[i])
  {
    var i := 0;
    while i < |draws|
      invariant i <= |draws|
      invariant FirstAccepted(draws, rounds, 0) == FirstAccepted(draws, rounds, i)
      invariant forall j :: 0 <= j < i ==> !MillerRabin(SetLowBit(draws[j]), rounds[j])
    {
      var num := SetLowBit(draws[i]);
      var accepted := IsPrime(num, rounds[i]);
      if accepted {
        SetLowBitBelow(draws[i], bits);
        return Some(num);
      }
      i := i + 1;
    }
    return None;
  }
}
