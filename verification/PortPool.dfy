/** Port allocation over a held list: the lowest free port, and aligned
    REST/gRPC/p2p triples for lightning instances. */
module PortPool {
  import opened Prelude

  const WINDOW_BASE := 20000
  const WINDOW_MAX := 20399

  const ELECTRUM_PORT_BASE := 20000
  const ELECTRUM_PORT_MAX := 20099
  const EXPLORER_PORT_BASE := 20100
  const EXPLORER_PORT_MAX := 20199
  const LIGHTNING_PORT_BASE := 20200
  const LIGHTNING_PORT_MAX := 20399

  // ---- single ports

  function Insert(x: int, s: seq<int>): (r: seq<int>)
    requires Ascending(s)
    ensures Ascending(r)
    ensures forall y :: y in r <==> y == x || y in s
  {
    if s == [] then [x]
    else if x < s[0] then
      AscendingCons(x, s);
      [x] + s
    else if x == s[0] then s
    else
      var rest := Insert(x, s[1..]);
      assert forall y :: y in s <==> y == s[0] || y in s[1..];
      AscendingCons(s[0], rest);
      [s[0]] + rest
  }

  /** `sort_unstable` followed by `dedup`: the same ports, strictly ascending. */
  function SortDedup(s: seq<int>): (r: seq<int>)
    ensures Ascending(r)
    ensures forall y :: y in r <==> y in s
  {
    if s == [] then []
    else
      assert forall y :: y in s <==> y == s[0] || y in s[1..];
      Insert(s[0], SortDedup(s[1..]))
  }

  /** The least port of the range outside a set, found by counting up. */
  function Lowest(base: int, max: int, held: set<int>): (r: Option<int>)
    ensures r.Some? ==> base <= r.value <= max && r.value !in held
                        && forall q :: base <= q < r.value ==> q in held
    ensures r.None? ==> forall q :: base <= q <= max ==> q in held
    decreases max - base
  {
    if base > max then None else if base !in held then Some(base) else Lowest(base + 1, max, held)
  }

  ghost predicate Free(base: int, max: int, held: seq<int>, port: int) {
    base <= port <= max && port !in held
  }

  lemma LowestUnique(base: int, max: int, held: seq<int>, candidate: int)
    requires base <= candidate && candidate !in held && forall q :: base <= q < candidate ==> q in held
    ensures Lowest(base, max, Elements(held)) == if candidate <= max then Some(candidate) else None
  {
    var lowest := Lowest(base, max, Elements(held));
    assert forall q :: q in Elements(held) <==> q in held;
    if candidate <= max {
      assert candidate !in Elements(held);
      assert lowest.Some?;
    }
  }

  lemma NotTaken(taken: seq<int>, i: nat, candidate: int)
    requires Ascending(taken) && i <= |taken|
    requires forall j :: 0 <= j < i ==> taken[j] < candidate
    requires i < |taken| ==> taken[i] > candidate
    ensures candidate !in taken
  {
    forall j | 0 <= j < |taken| ensures taken[j] != candidate {
      if i < j { assert taken[i] < taken[j]; }
    }
  }

  /** `lowest_free_port`: the least port of the range outside the held list,
      whatever order, repetition or stray ports that list has. The scan moves
      past at most one candidate per held port. */
  method LowestFreePort(base: int, max: int, held: seq<int>) returns (r: Option<int>)
    ensures r.Some? ==> Free(base, max, held, r.value) && forall q :: Free(base, max, held, q) ==> r.value <= q
    ensures r.None? <==> forall q :: !Free(base, max, held, q)
    ensures r == Lowest(base, max, Elements(held))
  {
    if base > max {
      return None;
    }
    var taken := SortDedup(held);
    var candidate := base;
    var i := 0;
    while i < |taken|
      invariant 0 <= i <= |taken| && base <= candidate <= base + i
      invariant forall q :: base <= q < candidate ==> q in held
      invariant forall j :: 0 <= j < i ==> taken[j] < candidate
    {
      var port := taken[i];
      if port < candidate {
        i := i + 1;
        continue;
      }
      if port > candidate {
        break;
      }
      assert taken[i] in taken;
      candidate := candidate + 1;
      i := i + 1;
    }
    NotTaken(taken, i, candidate);
    assert Free(base, max, held, candidate) <==> candidate <= max;
    LowestUnique(base, max, held, candidate);
    r := if candidate <= max then Some(candidate) else None;
  }

  // ---- aligned triples

  /** Rust's `%`, which truncates toward zero. */
  function TruncatedRem(a: int, b: int): int
    requires b > 0
  {
    if a >= 0 then a % b else -((-a) % b)
  }

  function FirstAligned(base: int): (p: int)
    ensures base <= p < base + 3 && p % 3 == 0
  {
    base + TruncatedRem(3 - TruncatedRem(base, 3), 3)
  }

  function Triple(p: int): set<int> { {p, p + 1, p + 2} }

  predicate TripleFree(held: set<int>, p: int) {
    p !in held && p + 1 !in held && p + 2 !in held
  }

  ghost predicate FreeStart(base: int, max: int, held: set<int>, p: int) {
    base <= p && p + 2 <= max && p % 3 == 0 && TripleFree(held, p)
  }

  /** `free_port_triple`: the least aligned start whose three ports are free. */
  method FreePortTriple(base: int, max: int, held: seq<int>) returns (r: Option<int>)
    ensures r.Some? ==> FreeStart(base, max, Elements(held), r.value)
                        && forall q :: FreeStart(base, max, Elements(held), q) ==> r.value <= q
    ensures r.None? ==> forall q :: !FreeStart(base, max, Elements(held), q)
  {
    var p := base + TruncatedRem(3 - TruncatedRem(base, 3), 3);
    while p + 2 <= max
      invariant base <= p && p % 3 == 0
      invariant forall q :: FreeStart(base, max, Elements(held), q) ==> p <= q
      decreases max - p
    {
      if p !in held && p + 1 !in held && p + 2 !in held {
        assert FreeStart(base, max, Elements(held), p);
        return Some(p);
      }
      p := p + 3;
    }
    return None;
  }

  /** All free aligned starts from `p` up, lowest first. */
  function Starts(p: int, max: int, held: set<int>): (r: seq<int>)
    requires p % 3 == 0
    decreases max - p
  {
    if p + 2 > max then []
    else if TripleFree(held, p) then [p] + Starts(p + 3, max, held)
    else Starts(p + 3, max, held)
  }

  function FreeStarts(base: int, max: int, held: set<int>): seq<int> {
    Starts(FirstAligned(base), max, held)
  }

  lemma {:induction false} StartsExact(p: int, max: int, held: set<int>)
    requires p % 3 == 0
    ensures Ascending(Starts(p, max, held))
    ensures forall q :: q in Starts(p, max, held) <==> FreeStart(p, max, held, q)
    decreases max - p
  {
    if p + 2 <= max {
      StartsExact(p + 3, max, held);
      var rest := Starts(p + 3, max, held);
      assert forall q :: FreeStart(p, max, held, q) && q != p ==> FreeStart(p + 3, max, held, q);
      if TripleFree(held, p) {
        assert FreeStart(p, max, held, p);
        assert forall q :: q in [p] + rest <==> q == p || q in rest;
        AscendingCons(p, rest);
      }
    }
  }

  /** The listing is exactly the set of free aligned starts, without repetition. */
  lemma FreeStartsExact(base: int, max: int, held: set<int>)
    ensures Ascending(FreeStarts(base, max, held))
    ensures forall q :: q in FreeStarts(base, max, held) <==> FreeStart(base, max, held, q)
    ensures |FreeStarts(base, max, held)| == |FreeStartSet(base, max, held)|
  {
    StartsExact(FirstAligned(base), max, held);
    DistinctCount(FreeStarts(base, max, held));
    assert Elements(FreeStarts(base, max, held)) == FreeStartSet(base, max, held);
  }

  ghost function FreeStartSet(base: int, max: int, held: set<int>): set<int> {
    set p | base <= p <= max && FreeStart(base, max, held, p)
  }

  /** Taking a triple removes its own start from the listing and no other. */
  lemma {:induction false} StartsAfterTake(p: int, max: int, held: set<int>, taken: int)
    requires p % 3 == 0 && taken % 3 == 0 && taken < p
    ensures Starts(p, max, held + Triple(taken)) == Starts(p, max, held)
    decreases max - p
  {
    if p + 2 <= max {
      StartsAfterTake(p + 3, max, held, taken);
    }
  }

  lemma {:induction false} StartsTakeFirst(p: int, max: int, held: set<int>, first: int)
    requires p % 3 == 0 && Starts(p, max, held) != [] && first == Starts(p, max, held)[0]
    ensures Starts(p, max, held + Triple(first)) == Starts(p, max, held)[1..]
    decreases max - p
  {
    if TripleFree(held, p) {
      assert first == p;
      StartsAfterTake(p + 3, max, held, p);
      assert !TripleFree(held + Triple(p), p);
    } else {
      StartsExact(p + 3, max, held);
      StartsTakeFirst(p + 3, max, held, first);
      assert !TripleFree(held + Triple(first), p);
    }
  }

  lemma FirstStart(base: int, max: int, held: set<int>, p: int)
    requires FreeStart(base, max, held, p) && forall q :: FreeStart(base, max, held, q) ==> p <= q
    ensures FreeStarts(base, max, held) != [] && FreeStarts(base, max, held)[0] == p
  {
    FreeStartsExact(base, max, held);
    var starts := FreeStarts(base, max, held);
    assert p in starts;
    assert starts[0] in starts;
    assert FreeStart(base, max, held, starts[0]);
  }

  lemma {:induction false} NoStart(base: int, p: int, max: int, held: set<int>)
    requires base <= p && p % 3 == 0 && forall q :: !FreeStart(base, max, held, q)
    ensures Starts(p, max, held) == []
    decreases max - p
  {
    if p + 2 <= max {
      assert !FreeStart(base, max, held, p);
      NoStart(base, p + 3, max, held);
    }
  }

  /** `next_lightning_ports`: the first `triples` free aligned starts; it fails
      exactly when there are fewer, so no choice of triples could do better. */
  method NextLightningPorts(base: int, max: int, held: seq<int>, triples: nat) returns (r: Option<seq<int>>)
    ensures r.Some? <==> triples <= |FreeStarts(base, max, Elements(held))|
    ensures r.Some? ==> r.value == FreeStarts(base, max, Elements(held))[..triples]
  {
    var ports: seq<int> := [];
    var allHeld := held;
    for i := 0 to triples
      invariant |ports| == i <= |FreeStarts(base, max, Elements(held))|
      invariant ports == FreeStarts(base, max, Elements(held))[..i]
      invariant FreeStarts(base, max, Elements(allHeld)) == FreeStarts(base, max, Elements(held))[i..]
    {
      var p := FreePortTriple(base, max, allHeld);
      if p.None? {
        NoStart(base, FirstAligned(base), max, Elements(allHeld));
        return None;
      }
      FirstStart(base, max, Elements(allHeld), p.value);
      StartsTakeFirst(FirstAligned(base), max, Elements(allHeld), p.value);
      ghost var before := allHeld;
      allHeld := allHeld + [p.value];
      allHeld := allHeld + [p.value + 1];
      allHeld := allHeld + [p.value + 2];
      assert Elements(allHeld) == Elements(before) + Triple(p.value);
      ports := ports + [p.value];
    }
    r := Some(ports);
  }

  /** The allocation: ascending, aligned, in range, free, and pairwise disjoint. */
  lemma AllocationIsDisjoint(base: int, max: int, held: set<int>, triples: nat)
    requires triples <= |FreeStarts(base, max, held)|
    ensures var ports := FreeStarts(base, max, held)[..triples];
            && |ports| == triples && Ascending(ports)
            && (forall i :: 0 <= i < triples ==> FreeStart(base, max, held, ports[i]))
            && (forall i, j :: 0 <= i < j < triples ==> Triple(ports[i]) !! Triple(ports[j]))
  {
    FreeStartsExact(base, max, held);
    var starts := FreeStarts(base, max, held);
    forall i | 0 <= i < triples ensures FreeStart(base, max, held, starts[i]) {
      assert starts[i] in starts;
    }
    forall i, j | 0 <= i < j < triples ensures Triple(starts[i]) !! Triple(starts[j]) {
      AlignedDisjoint(starts[i], starts[j]);
    }
  }

  lemma AlignedDisjoint(p: int, q: int)
    requires p % 3 == 0 && q % 3 == 0 && p != q
    ensures Triple(p) !! Triple(q)
  {
  }

  /** A set of free, aligned, pairwise different starts is never larger than the
      listing: greedy allocation is optimal. */
  lemma GreedyIsOptimal(base: int, max: int, held: set<int>, choice: set<int>)
    requires forall p :: p in choice ==> FreeStart(base, max, held, p)
    ensures |choice| <= |FreeStarts(base, max, held)|
  {
    FreeStartsExact(base, max, held);
    SubsetCount(choice, FreeStartSet(base, max, held));
  }

  lemma {:induction false} CountFrom(p: int, max: int)
    requires p % 3 == 0 && p <= max + 1
    ensures |Starts(p, max, {})| == (max + 1 - p) / 3
    decreases max - p
  {
    if p + 2 <= max {
      CountFrom(p + 3, max);
    }
  }

  /** The shipped lightning range holds 66 triples, all inside the published
      window and clear of the electrum and explorer ranges. */
  lemma ShippedCapacity()
    ensures |FreeStarts(LIGHTNING_PORT_BASE, LIGHTNING_PORT_MAX, {})| == 66
    ensures forall p :: p in FreeStarts(LIGHTNING_PORT_BASE, LIGHTNING_PORT_MAX, {}) ==>
      20200 <= p && p + 2 <= 20399 && WINDOW_BASE <= p && p + 2 <= WINDOW_MAX && p > EXPLORER_PORT_MAX
    ensures FreeStarts(LIGHTNING_PORT_BASE, LIGHTNING_PORT_MAX, {})[0] == 20202
  {
    var starts := FreeStarts(LIGHTNING_PORT_BASE, LIGHTNING_PORT_MAX, {});
    assert FirstAligned(LIGHTNING_PORT_BASE) == 20202;
    CountFrom(20202, LIGHTNING_PORT_MAX);
    FreeStartsExact(LIGHTNING_PORT_BASE, LIGHTNING_PORT_MAX, {});
    assert TripleFree({}, 20202);
  }
}
