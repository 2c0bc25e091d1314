/** Per-source-address connection counts
    (services/reservegrid-common/src/per_ip.rs). */
module PerIp {
  import opened Base

  type Counts = map<Ip, nat>

  function CountFor(counts: Counts, ip: Ip): nat
  {
    if ip in counts then counts[ip] else 0
  }

  // Whether one more connection from ip may be counted. A ceiling of 0 disables counting.
  predicate Admits(maxPerIp: nat, counts: Counts, ip: Ip)
  {
    maxPerIp == 0 || CountFor(counts, ip) < maxPerIp
  }

  // At the ceiling right now; a disabled ceiling is never full.
  predicate AddressFull(maxPerIp: nat, counts: Counts, ip: Ip)
  {
    maxPerIp != 0 && CountFor(counts, ip) >= maxPerIp
  }

  function Accepted(maxPerIp: nat, counts: Counts, ip: Ip): Counts
  {
    if maxPerIp == 0 then counts else counts[ip := CountFor(counts, ip) + 1]
  }

  function Dropped(counts: Counts, ip: Ip): Counts
  {
    if ip !in counts then counts
    else if counts[ip] <= 1 then counts - {ip}
    else counts[ip := counts[ip] - 1]
  }

  // An entry exists only while its address holds a connection, within the ceiling.
  ghost predicate WellCounted(maxPerIp: nat, counts: Counts)
  {
    && (forall ip :: ip in counts ==> 0 < counts[ip] <= maxPerIp)
    && (maxPerIp == 0 ==> counts == map[])
  }

  // Dropping the permit undoes taking it, exactly, and no other address is touched.
  lemma DropUndoesAccept(maxPerIp: nat, counts: Counts, ip: Ip)
    requires WellCounted(maxPerIp, counts) && Admits(maxPerIp, counts, ip)
    ensures WellCounted(maxPerIp, Accepted(maxPerIp, counts, ip))
    ensures Dropped(Accepted(maxPerIp, counts, ip), ip) == counts
    ensures forall other :: other != ip ==>
              CountFor(Accepted(maxPerIp, counts, ip), other) == CountFor(counts, other)
  {
    if ip !in counts && maxPerIp != 0 {
      assert counts[ip := 1] - {ip} == counts;
    }
  }

  class Tracker {
    const maxPerIp: nat
    var counts: Counts

    ghost predicate Valid()
      reads this
    {
      WellCounted(maxPerIp, counts)
    }

    constructor (maxPerIp: nat)
      ensures Valid() && this.maxPerIp == maxPerIp && counts == map[]
    {
      this.maxPerIp := maxPerIp;
      this.counts := map[];
    }

    method TryAccept(ip: Ip) returns (ok: bool)
      requires Valid()
      modifies this
      ensures Valid()
      ensures ok == Admits(maxPerIp, old(counts), ip) == (maxPerIp == 0 || CountFor(old(counts), ip) < maxPerIp)
      ensures ok && maxPerIp != 0 ==> CountFor(counts, ip) == CountFor(old(counts), ip) + 1
      ensures forall other :: other != ip ==> CountFor(counts, other) == CountFor(old(counts), other)
      ensures counts == if ok then Accepted(maxPerIp, old(counts), ip) else old(counts)
    {
      if maxPerIp == 0 {
        return true;
      }
      var current := if ip in counts then counts[ip] else 0;
      if current >= maxPerIp {
        return false;
      }
      counts := counts[ip := current + 1];
      return true;
    }

    method Release(ip: Ip)
      requires Valid()
      modifies this
      ensures Valid() && counts == Dropped(old(counts), ip)
      ensures CountFor(counts, ip) == SatSub(CountFor(old(counts), ip), 1)
      ensures forall other :: other != ip ==> CountFor(counts, other) == CountFor(old(counts), other)
    {
      if ip in counts {
        var count := SatSub(counts[ip], 1);
        counts := counts[ip := count];
        if count == 0 {
          counts := counts - {ip};
          assert counts == old(counts) - {ip};
        }
      }
    }
  }
}
