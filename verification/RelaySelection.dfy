/** Relay selection, internal/tunnel/relay_selector.go, with load ratios as exact quotients. */
module RelaySelection {
  import opened Bytes

  datatype RelayNode = RelayNode(id: string, region: string, status: string, active: int, capacity: int)

  predicate HasRoom(r: RelayNode) { r.active < r.capacity }

  /** Loads are counts, so a relay with room has a positive capacity. */
  type Fleet = rs: seq<RelayNode> | forall i | 0 <= i < |rs| :: rs[i].active >= 0

  function Ratio(r: RelayNode): real
    requires r.capacity > 0
  {
    r.active as real / r.capacity as real
  }

  /** The two comparators handed to `sort.Slice`. */
  datatype Order = ByRegionThenLoad(region: string) | ByLoad

  predicate Preferred(o: Order, r: RelayNode) { o.ByRegionThenLoad? && r.region == o.region }

  predicate Less(o: Order, a: RelayNode, b: RelayNode)
    requires a.capacity > 0 && b.capacity > 0
  {
    if Preferred(o, a) != Preferred(o, b) then Preferred(o, a) else Ratio(a) < Ratio(b)
  }

  predicate AllPositive(rs: seq<RelayNode>) { forall i | 0 <= i < |rs| :: rs[i].capacity > 0 }

  /** The comparator is a strict weak order, which is what `sort.Slice` needs to sort at all. */
  lemma LessIsStrictWeakOrder(o: Order, a: RelayNode, b: RelayNode, c: RelayNode)
    requires a.capacity > 0 && b.capacity > 0 && c.capacity > 0
    ensures !Less(o, a, a)
    ensures Less(o, a, b) ==> !Less(o, b, a)
    ensures Less(o, a, b) && Less(o, b, c) ==> Less(o, a, c)
    ensures !Less(o, a, b) && !Less(o, b, c) ==> !Less(o, a, c)
  {
  }

  /** Comparing ratios is comparing cross products of the counts, with no division. */
  lemma RatioLessIsCrossProduct(a: RelayNode, b: RelayNode)
    requires a.capacity > 0 && b.capacity > 0
    ensures Ratio(a) < Ratio(b) <==> a.active * b.capacity < b.active * a.capacity
  {
  }

  /** What `sort.Slice` promises: a permutation with no element less than the one before it. */
  ghost predicate SortedBy(o: Order, s: seq<RelayNode>)
    requires AllPositive(s)
  {
    forall i | 0 < i < |s| :: !Less(o, s[i], s[i - 1])
  }

  /** In any sorted order nothing is less than the first element. */
  lemma {:induction false} FirstIsLeast(o: Order, s: seq<RelayNode>, i: nat)
    requires AllPositive(s) && SortedBy(o, s) && i < |s|
    ensures !Less(o, s[i], s[0])
  {
    if i > 0 {
      FirstIsLeast(o, s, i - 1);
      assert !Less(o, s[i], s[i - 1]);
      LessIsStrictWeakOrder(o, s[i], s[i - 1], s[0]);
    } else {
      LessIsStrictWeakOrder(o, s[0], s[0], s[0]);
    }
  }

  /** The relays that survive the filters of `Select` and of `SelectAlternative`. */
  datatype Filter = Spare | Alternative(region: string, failedID: string)

  predicate Qualifies(f: Filter, r: RelayNode) {
    match f
    case Spare => HasRoom(r)
    case Alternative(region, failedID) =>
      r.id != failedID && r.status == "online" && r.capacity != 0 && (region == "" || r.region == region) && HasRoom(r)
  }

  function Candidates(f: Filter, rs: seq<RelayNode>): seq<RelayNode> {
    if rs == [] then []
    else Candidates(f, rs[..|rs| - 1]) + if Qualifies(f, rs[|rs| - 1]) then [rs[|rs| - 1]] else []
  }

  lemma {:induction false} CandidatesAre(f: Filter, rs: seq<RelayNode>)
    ensures forall r :: r in Candidates(f, rs) <==> r in rs && Qualifies(f, r)
  {
    if rs != [] {
      CandidatesAre(f, rs[..|rs| - 1]);
      assert rs == rs[..|rs| - 1] + [rs[|rs| - 1]];
    }
  }

  /** The candidate loop. */
  method Collect(f: Filter, relays: seq<RelayNode>) returns (candidates: seq<RelayNode>)
    ensures candidates == Candidates(f, relays)
  {
    candidates := [];
    for i := 0 to |relays|
      invariant candidates == Candidates(f, relays[..i])
    {
      assert relays[..i + 1][..i] == relays[..i];
      if Qualifies(f, relays[i]) {
        candidates := candidates + [relays[i]];
      }
    }
    assert relays[..|relays|] == relays;
  }

  method Place(o: Order, t: seq<RelayNode>, x: RelayNode) returns (k: nat)
    requires AllPositive(t) && x.capacity > 0
    ensures k <= |t| && (k > 0 ==> !Less(o, x, t[k - 1])) && (k < |t| ==> Less(o, x, t[k]))
  {
    k := 0;
    while k < |t| && !Less(o, x, t[k])
      invariant 0 <= k <= |t|
      invariant k > 0 ==> !Less(o, x, t[k - 1])
    {
      k := k + 1;
    }
  }

  lemma PlacedIsSorted(o: Order, t: seq<RelayNode>, x: RelayNode, k: nat)
    requires AllPositive(t) && SortedBy(o, t) && x.capacity > 0
    requires k <= |t| && (k > 0 ==> !Less(o, x, t[k - 1])) && (k < |t| ==> Less(o, x, t[k]))
    ensures AllPositive(t[..k] + [x] + t[k..]) && SortedBy(o, t[..k] + [x] + t[k..])
  {
  }

  lemma PlacedIsPermutation<T>(t: seq<T>, x: T, k: nat)
    requires k <= |t|
    ensures multiset(t[..k] + [x] + t[k..]) == multiset(t) + multiset{x}
  {
    assert t == t[..k] + t[k..];
  }

  method Insert(o: Order, t: seq<RelayNode>, x: RelayNode) returns (u: seq<RelayNode>)
    requires AllPositive(t) && SortedBy(o, t) && x.capacity > 0
    ensures AllPositive(u) && SortedBy(o, u) && multiset(u) == multiset(t) + multiset{x}
  {
    var k := Place(o, t, x);
    PlacedIsSorted(o, t, x, k);
    PlacedIsPermutation(t, x, k);
    u := t[..k] + [x] + t[k..];
  }

  /** Stands for `sort.Slice`; callers use nothing but its contract. */
  method SortSlice(o: Order, s: seq<RelayNode>) returns (t: seq<RelayNode>)
    requires AllPositive(s)
    ensures multiset(t) == multiset(s) && AllPositive(t) && SortedBy(o, t)
  {
    t := [];
    for i := 0 to |s|
      invariant AllPositive(t) && SortedBy(o, t)
      invariant multiset(t) == multiset(s[..i])
    {
      t := Insert(o, t, s[i]);
      assert s[..i + 1] == s[..i] + [s[i]];
    }
    assert s[..|s|] == s;
  }

  /** `r` is a best choice among the qualifying relays. */
  ghost predicate Best(f: Filter, o: Order, relays: seq<RelayNode>, r: RelayNode) {
    && r in relays && Qualifies(f, r) && r.capacity > 0
    && forall b | b in relays && Qualifies(f, b) ::
         && b.capacity > 0
         && (Preferred(o, b) ==> Preferred(o, r))
         && (Preferred(o, b) == Preferred(o, r) ==> Ratio(r) <= Ratio(b))
  }

  method Choose(f: Filter, o: Order, relays: Fleet) returns (chosen: Option<RelayNode>)
    ensures chosen.None? <==> forall r | r in relays :: !Qualifies(f, r)
    ensures chosen.Some? ==> Best(f, o, relays, chosen.value)
  {
    var candidates := Collect(f, relays);
    CandidatesAre(f, relays);
    if |candidates| == 0 {
      return None;
    }
    assert candidates[0] in candidates;
    assert forall i | 0 <= i < |candidates| :: candidates[i] in candidates;
    var sorted := SortSlice(o, candidates);
    assert forall b :: b in sorted <==> b in multiset(sorted);
    assert forall b :: b in candidates <==> b in multiset(candidates);
    assert |sorted| == |multiset(sorted)| && sorted[0] in sorted;
    forall b | b in candidates ensures !Less(o, b, sorted[0]) {
      var i :| 0 <= i < |sorted| && sorted[i] == b;
      FirstIsLeast(o, sorted, i);
    }
    return Some(sorted[0]);
  }

  /**
   * `Select`: fails exactly when no relay has room; otherwise the answer has room, is in the preferred
   * region whenever some relay there has room, and has the least load ratio of its class.
   */
  method Select(relays: Fleet, preferredRegion: string) returns (chosen: Option<RelayNode>)
    ensures chosen.None? <==> forall r | r in relays :: r.active >= r.capacity
    ensures chosen.Some? ==>
              && chosen.value in relays && chosen.value.active < chosen.value.capacity
              && ((exists r | r in relays :: r.active < r.capacity && r.region == preferredRegion) ==>
                    chosen.value.region == preferredRegion)
              && forall r | r in relays && r.active < r.capacity && (r.region == preferredRegion <==> chosen.value.region == preferredRegion) ::
                   chosen.value.active * r.capacity <= r.active * chosen.value.capacity
  {
    chosen := Choose(Spare, ByRegionThenLoad(preferredRegion), relays);
    assert forall r | r in relays :: Qualifies(Spare, r) == HasRoom(r);
    if chosen.Some? {
      forall r | r in relays && HasRoom(r) && (r.region == preferredRegion <==> chosen.value.region == preferredRegion)
        ensures chosen.value.active * r.capacity <= r.active * chosen.value.capacity
      {
        assert Qualifies(Spare, r);
        RatioLessIsCrossProduct(r, chosen.value);
      }
    }
  }

  /**
   * `SelectAlternative`: never the failed relay; fails exactly when no other online relay of the region
   * (any region when none is given) has room; otherwise the least loaded of those.
   */
  method SelectAlternative(relays: Fleet, region: string, failedRelayID: string) returns (chosen: Option<RelayNode>)
    ensures chosen.None? <==>
              forall r | r in relays ::
                r.id == failedRelayID || r.status != "online" || (region != "" && r.region != region) || r.active >= r.capacity
    ensures chosen.Some? ==>
              && chosen.value in relays && chosen.value.id != failedRelayID && chosen.value.status == "online"
              && chosen.value.active < chosen.value.capacity && (region != "" ==> chosen.value.region == region)
              && forall r | r in relays && r.id != failedRelayID && r.status == "online" && r.active < r.capacity
                            && (region == "" || r.region == region) ::
                   chosen.value.active * r.capacity <= r.active * chosen.value.capacity
  {
    chosen := Choose(Alternative(region, failedRelayID), ByLoad, relays);
    forall r | r in relays
      ensures Qualifies(Alternative(region, failedRelayID), r)
              <==> r.id != failedRelayID && r.status == "online" && (region == "" || r.region == region) && r.active < r.capacity
    {
      var i :| 0 <= i < |relays| && relays[i] == r;
    }
    if chosen.Some? {
      forall r | r in relays && Qualifies(Alternative(region, failedRelayID), r)
        ensures chosen.value.active * r.capacity <= r.active * chosen.value.capacity
      {
        RatioLessIsCrossProduct(r, chosen.value);
      }
    }
  }
}
