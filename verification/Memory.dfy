/** The C library's overlapping block move, on array elements. */
module Memory {

  method Move<T>(a: array<T>, dst: nat, src: nat, len: nat)
    requires dst + len <= a.Length && src + len <= a.Length
    modifies a
    ensures a[..] == old(a[..dst] + a[src..src + len] + a[dst + len..])
  {
    forall i | 0 <= i < len {
      a[dst + i] := a[src + i];
    }
  }
}
