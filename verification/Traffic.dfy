/** Amounts of traffic, as counters and accumulators hold them. */
module Traffic {

  datatype Amounts = Amounts(bytes: nat, packets: nat, flows: nat)

  const NOTHING := Amounts(0, 0, 0)

  function Plus(a: Amounts, b: Amounts): Amounts {
    Amounts(a.bytes + b.bytes, a.packets + b.packets, a.flows + b.flows)
  }
}
