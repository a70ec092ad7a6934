/** The packet counters: a rolling view that the reporter resets, and a lifetime view. */
module Stats {
  datatype Counter = Zerohop | Passthru | Noop | Dropped | Skipped | Errors

  /** One value for every counter. */
  datatype Counts = Counts(zerohop: nat, passthru: nat, noop: nat, dropped: nat, skipped: nat, errors: nat) {
    function Get(c: Counter): nat {
      match c
      case Zerohop => zerohop
      case Passthru => passthru
      case Noop => noop
      case Dropped => dropped
      case Skipped => skipped
      case Errors => errors
    }

    function Inc(c: Counter): (r: Counts)
      ensures r.Get(c) == Get(c) + 1
      ensures forall d :: d != c ==> r.Get(d) == Get(d)
      ensures r.Total() == Total() + 1
    {
      match c
      case Zerohop => this.(zerohop := zerohop + 1)
      case Passthru => this.(passthru := passthru + 1)
      case Noop => this.(noop := noop + 1)
      case Dropped => this.(dropped := dropped + 1)
      case Skipped => this.(skipped := skipped + 1)
      case Errors => this.(errors := errors + 1)
    }

    function Total(): nat {
      zerohop + passthru + noop + dropped + skipped + errors
    }
  }

  const ZERO := Counts(0, 0, 0, 0, 0, 0)

  /** How often `c` occurs in `cs`. */
  function Count(cs: seq<Counter>, c: Counter): nat {
    if cs == [] then 0 else (if cs[0] == c then 1 else 0) + Count(cs[1..], c)
  }

  function IncAll(n: Counts, cs: seq<Counter>): Counts
    decreases |cs|
  {
    if cs == [] then n else IncAll(n.Inc(cs[0]), cs[1..])
  }

  lemma IncOne(n: Counts, c: Counter)
    ensures IncAll(n, [c]) == n.Inc(c)
  {
    assert IncAll(n.Inc(c), [c][1..]) == n.Inc(c);
  }

  lemma {:induction false} IncAllCounts(n: Counts, cs: seq<Counter>)
    ensures forall c :: IncAll(n, cs).Get(c) == n.Get(c) + Count(cs, c)
    ensures IncAll(n, cs).Total() == n.Total() + |cs|
    decreases |cs|
  {
    if cs != [] {
      IncAllCounts(n.Inc(cs[0]), cs[1..]);
    }
  }

  lemma {:induction false} IncAllAppend(n: Counts, cs: seq<Counter>, c: Counter)
    ensures IncAll(n, cs + [c]) == IncAll(n, cs).Inc(c)
    decreases |cs|
  {
    if cs == [] {
      assert cs + [c] == [c];
    } else {
      assert (cs + [c])[1..] == cs[1..] + [c];
      IncAllAppend(n.Inc(cs[0]), cs[1..], c);
    }
  }

  ghost predicate Complete(m: map<Counter, nat>) {
    Zerohop in m && Passthru in m && Noop in m && Dropped in m && Skipped in m && Errors in m
  }

  function ToCounts(m: map<Counter, nat>): Counts
    requires Complete(m)
  {
    Counts(m[Zerohop], m[Passthru], m[Noop], m[Dropped], m[Skipped], m[Errors])
  }

  /** Every method body runs under the object's lock, so each is one atomic step. */
  class AntifloodStats {
    var zerohop: nat
    var passthru: nat
    var noop: nat
    var dropped: nat
    var skipped: nat
    var errors: nat
    var lifetime: map<Counter, nat>

    ghost predicate Valid()
      reads this
    {
      Complete(lifetime)
    }

    ghost function Rolling(): Counts
      reads this
    {
      Counts(zerohop, passthru, noop, dropped, skipped, errors)
    }

    ghost function Lifetime(): Counts
      requires Valid()
      reads this
    {
      ToCounts(lifetime)
    }

    constructor ()
      ensures Valid() && Rolling() == ZERO && Lifetime() == ZERO
    {
      zerohop, passthru, noop, dropped, skipped, errors := 0, 0, 0, 0, 0, 0;
      lifetime := map[Zerohop := 0, Passthru := 0, Noop := 0, Dropped := 0, Skipped := 0, Errors := 0];
    }

    method Inc(counter: Counter)
      requires Valid()
      modifies this
      ensures Valid()
      ensures Rolling() == old(Rolling()).Inc(counter)
      ensures Lifetime() == old(Lifetime()).Inc(counter)
    {
      match counter {
        case Zerohop => zerohop := zerohop + 1;
        case Passthru => passthru := passthru + 1;
        case Noop => noop := noop + 1;
        case Dropped => dropped := dropped + 1;
        case Skipped => skipped := skipped + 1;
        case Errors => errors := errors + 1;
      }
      lifetime := lifetime[counter := lifetime[counter] + 1];
    }

    /** Lifetime counters and their total, for the health endpoint. */
    method Snapshot() returns (snap: map<Counter, nat>, total: nat)
      requires Valid()
      ensures Complete(snap) && ToCounts(snap) == Lifetime()
      ensures total == Lifetime().Total()
    {
      snap := lifetime;
      total := lifetime[Zerohop] + lifetime[Passthru] + lifetime[Noop]
      + lifetime[Dropped] + lifetime[Skipped] + lifetime[Errors];
    }

    /** The rolling window and its total; the window then starts again from zero. */
    method Reset() returns (snap: Counts, total: nat)
      requires Valid()
      modifies this
      ensures Valid()
      ensures snap == old(Rolling()) && total == snap.Total()
      ensures Rolling() == ZERO && Lifetime() == old(Lifetime())
    {
      snap := Counts(zerohop, passthru, noop, dropped, skipped, errors);
      total := snap.zerohop + snap.passthru + snap.noop + snap.dropped + snap.skipped + snap.errors;
      zerohop, passthru, noop, dropped, skipped, errors := 0, 0, 0, 0, 0, 0;
    }
  }
}
