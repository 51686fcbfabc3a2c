/** The two periodic timers of the endpoint. */
module Timers {

  import opened Words

  const BEACON_INTERVAL: Word32 := 25000000

  const GRATUITOUS_ARP_INTERVAL: Word32 := 125000000

  datatype Ticks = Ticks(beacon: bool, gratuitousArp: bool)

  datatype Timers = Timers(beaconCount: Word32, gratuitousArpCount: Word32)

  // periodic_counter_tick: the new counter and whether it ticked.
  function CounterTick(interval: Word32, counter: Word32): (Word32, bool)
    requires interval > 0
  {
    if counter == interval - 1 then (0, true) else (Inc32(counter), false)
  }

  function TimersStep(t: Timers): (Timers, Ticks) {
    var (b, beacon) := CounterTick(BEACON_INTERVAL, t.beaconCount);
    var (g, gratuitous) := CounterTick(GRATUITOUS_ARP_INTERVAL, t.gratuitousArpCount);
    (Timers(b, g), Ticks(beacon, gratuitous))
  }

  // The timers after n cycles from reset.
  function TimersAt(n: nat): Timers {
    Timers(n % 25000000, n % 125000000)
  }

  // The ticks of the cycle with index n: the last of every interval.
  function TicksAt(n: nat): Ticks {
    Ticks((n + 1) % 25000000 == 0, (n + 1) % 125000000 == 0)
  }

  lemma BeaconTick(n: nat)
    ensures CounterTick(BEACON_INTERVAL, n % BEACON_INTERVAL)
         == ((n + 1) % BEACON_INTERVAL, (n + 1) % BEACON_INTERVAL == 0)
  {
    var q, r := n / 25000000, n % 25000000;
    assert n + 1 == 25000000 * q + (r + 1);
  }

  lemma GratuitousArpTick(n: nat)
    ensures CounterTick(GRATUITOUS_ARP_INTERVAL, n % GRATUITOUS_ARP_INTERVAL)
         == ((n + 1) % GRATUITOUS_ARP_INTERVAL, (n + 1) % GRATUITOUS_ARP_INTERVAL == 0)
  {
    var q, r := n / 125000000, n % 125000000;
    assert n + 1 == 125000000 * q + (r + 1);
  }

  // The counters never drift: after n cycles they are n modulo the interval.
  lemma TimersKeepTime(n: nat)
    ensures TimersStep(TimersAt(n)) == (TimersAt(n + 1), TicksAt(n))
  {
    hide CounterTick;
    BeaconTick(n);
    GratuitousArpTick(n);
  }

  // The two timers keep their phase, so every gratuitous tick falls on a beacon tick,
  // whose place it takes.
  lemma TimersInPhase(n: nat)
    ensures TimersAt(n).beaconCount == TimersAt(n).gratuitousArpCount % BEACON_INTERVAL
    ensures TicksAt(n).gratuitousArp ==> TicksAt(n).beacon
  {
    ModuloFive(n);
    ModuloFive(n + 1);
  }

  lemma ModuloFive(n: nat)
    ensures n % 25000000 == n % 125000000 % 25000000
  {
    var q, r := n / 125000000, n % 125000000;
    assert n == 25000000 * (5 * q) + r;
  }
}
