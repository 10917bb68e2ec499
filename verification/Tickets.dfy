/** Tickets of the locks in kernel/spin.c: 32-bit counters that wrap. */
module Tickets {
  const WRAP: nat := 0x1_0000_0000

  /** The `k`th ticket ever drawn, as the counter shows it. */
  ghost function Ticket(k: nat): nat {
    k % WRAP
  }

  lemma SameTicket(a: nat, b: nat)
    requires a <= b < a + WRAP && Ticket(a) == Ticket(b)
    ensures a == b
  {
  }

  lemma NextTicket(k: nat)
    ensures Ticket(k + 1) == (Ticket(k) + 1) % WRAP
  {
  }
}
