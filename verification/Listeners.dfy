/** Listening sockets across a restart (server/listen.c, built without IPv6). */
module Listeners {
  import opened Flattening
  import opened Basics

  datatype Address = Address(hostname: Option<string>, port: nat)

  /** A Listen directive, what its address resolves to, and which of the sockets
      can be created. */
  datatype Directive = Directive(address: Address, resolves: bool, resolved: seq<Address>, created: nat -> bool)

  /** The address resolves and all its sockets can be created. */
  predicate Feasible(d: Directive) {
    d.resolves && forall i: nat | i < |d.resolved| :: d.created(i)
  }

  datatype Opening = Open | BindFailed | NothingOpen

  /** How a restart ends: a directive fails, or the listeners are opened, or not. */
  datatype Outcome = Refused | Ended(opening: Opening)

  /** A listener. The counters say how often its socket was bound and closed. */
  class Listener {
    const address: Option<Address>
    var next: Listener?
    var active: bool
    var binds: nat
    var closes: nat

    constructor (address: Option<Address>)
      ensures this.address == address && next == null && !active && binds == 0 && closes == 0
    {
      this.address := address;
      next, active, binds, closes := null, false, 0, 0;
    }
  }

  ghost function At(nodes: seq<Listener>, i: nat): Listener? {
    if i < |nodes| then nodes[i] else null
  }

  ghost predicate Chained(nodes: seq<Listener>)
    reads nodes`next
  {
    forall i {:trigger nodes[i].next} | 0 <= i < |nodes| :: nodes[i].next == At(nodes, i + 1)
  }

  predicate Distinct(nodes: seq<Listener>) {
    forall i, j | 0 <= i < j < |nodes| :: nodes[i] != nodes[j]
  }

  predicate Apart(a: seq<Listener>, b: seq<Listener>) {
    forall i, j | 0 <= i < |a| && 0 <= j < |b| :: a[i] != b[j]
  }

  lemma {:induction false} Unlinked(nodes: seq<Listener>, k: nat)
    requires k < |nodes| && Distinct(nodes)
    requires forall i {:trigger nodes[i].next} | 0 <= i < |nodes| && i + 1 != k && i != k ::
      nodes[i].next == At(nodes, i + 1)
    requires k > 0 ==> nodes[k - 1].next == At(nodes, k + 1)
    ensures Chained(nodes[..k] + nodes[k + 1..])
  {
    var rest := nodes[..k] + nodes[k + 1..];
    forall i {:trigger rest[i].next} | 0 <= i < |rest| ensures rest[i].next == At(rest, i + 1) {
      assert rest[i] == nodes[if i < k then i else i + 1];
    }
  }

  lemma {:induction false} AppendedApart(live: seq<Listener>, olds: seq<Listener>, node: Listener)
    requires Distinct(live) && Apart(live, olds) && node !in live && node !in olds
    ensures Distinct(live + [node]) && Apart(live + [node], olds)
  {}

  lemma {:induction false} Pushed(node: Listener, nodes: seq<Listener>)
    requires Chained(nodes) && node.next == At(nodes, 0)
    ensures Chained([node] + nodes)
  {
    var all := [node] + nodes;
    forall i {:trigger all[i].next} | 0 <= i < |all| ensures all[i].next == At(all, i + 1) {
      if i > 0 {
        assert all[i] == nodes[i - 1];
      }
    }
  }

  class Listeners {
    var head: Listener?
    var old_: Listener?
    ghost var live: seq<Listener>
    ghost var olds: seq<Listener>

    ghost predicate Valid()
      reads this, live`next, olds`next
    {
      && head == At(live, 0) && Chained(live) && Distinct(live)
      && old_ == At(olds, 0) && Chained(olds) && Distinct(olds)
      && Apart(live, olds)
    }

    constructor ()
      ensures Valid() && live == [] && olds == []
    {
      head, old_, live, olds := null, null, [], [];
    }

    /** Moves node k of the old listeners to the front of the listeners. */
    method Reuse(prev: Listener?, cur: Listener, ghost k: nat, ghost region: set<Listener>)
      requires Valid() && k < |olds| && cur == olds[k] && Within(olds, region)
      requires if k == 0 then prev == null else prev == olds[k - 1]
      modifies this, region`next
      ensures Valid() && live == [cur] + old(live) && olds == old(olds)[..k] + old(olds)[k + 1..]
    {
      if prev == null {
        old_ := cur.next;
      } else {
        prev.next := cur.next;
      }
      cur.next := head;
      head := cur;
      Unlinked(olds, k);
      Pushed(cur, live);
      live := [cur] + live;
      olds := olds[..k] + olds[k + 1..];
    }

    /** Where the walk over the old listeners is: m seen, k of them left alone, the
        others taken. */
    ghost predicate Walking(was: seq<Listener>, m: nat, k: nat, base: seq<Listener>, taken: seq<Listener>,
                            left: seq<Listener>, prev: Listener?, cur: Listener?)
      reads this
    {
      && m <= |was| && k == |left| <= |olds|
      && live == taken + base && olds[..k] == left && olds[k..] == was[m..]
      && cur == At(olds, k)
      && (if k == 0 then prev == null else prev == olds[k - 1])
    }

    /** The listener is taken. */
    method WalkMatch(prev: Listener?, cur: Listener, ghost was: seq<Listener>, ghost m: nat, ghost k: nat,
                     ghost base: seq<Listener>, ghost taken: seq<Listener>, ghost left: seq<Listener>,
                     ghost region: set<Listener>)
      returns (next: Listener?)
      requires Valid() && Walking(was, m, k, base, taken, left, prev, cur) && Within(olds, region)
      modifies this, region`next
      ensures m < |was| && cur == was[m]
      ensures Valid() && Walking(was, m + 1, k, base, [cur] + taken, left, prev, next) && Within(olds, region)
    {
      assert cur == olds[k] && cur == was[m];
      ghost var before := olds;
      next := cur.next;
      Reuse(prev, cur, k, region);
      assert olds[..k] == before[..k] && olds[k..] == before[k + 1..];
      Assoc([cur], taken, base);
    }

    /** The listener is left alone. */
    method WalkOn(prev: Listener?, cur: Listener, ghost was: seq<Listener>, ghost m: nat, ghost k: nat,
                  ghost base: seq<Listener>, ghost taken: seq<Listener>, ghost left: seq<Listener>)
      returns (next: Listener?)
      requires Valid() && Walking(was, m, k, base, taken, left, prev, cur)
      ensures m < |was| && cur == was[m]
      ensures Walking(was, m + 1, k + 1, base, taken, left + [cur], cur, next)
    {
      assert cur == olds[k] && cur == was[m];
      next := cur.next;
      assert olds[..k + 1] == olds[..k] + [cur];
    }

    /** One listener more, taken or left. */
    method WalkStep(prev0: Listener?, cur0: Listener, address: Address, ghost was: seq<Listener>, ghost m: nat,
                    ghost base: seq<Listener>, ghost taken0: seq<Listener>, ghost left0: seq<Listener>,
                    ghost region: set<Listener>)
      returns (prev: Listener?, cur: Listener?, matched: bool, ghost taken: seq<Listener>, ghost left: seq<Listener>)
      requires Valid() && Walking(was, m, |left0|, base, taken0, left0, prev0, cur0) && Within(olds, region)
      requires Sorted(was, m, address, taken0, left0)
      modifies this, region`next
      ensures m < |was| && Sorted(was, m + 1, address, taken, left)
      ensures taken != [] <==> matched || taken0 != []
      ensures Valid() && Walking(was, m + 1, |left|, base, taken, left, prev, cur) && Within(olds, region)
    {
      taken, left, matched := taken0, left0, Reusable(cur0.address, address);
      if matched {
        cur := WalkMatch(prev0, cur0, was, m, |left|, base, taken, left, region);
        prev := prev0;
        taken := [cur0] + taken;
      } else {
        cur := WalkOn(prev0, cur0, was, m, |left|, base, taken, left);
        prev := cur0;
        left := left + [cur0];
      }
      SortedMore(was, m, address, taken0, left0);
    }

    /** Takes back every old listener of that address. */
    method TakeOld(address: Address, ghost region: set<Listener>) returns (found: bool)
      requires Valid() && Within(olds, region)
      modifies this, region`next
      ensures Valid() && Within(olds, region)
      ensures live == Taken(old(olds), address) + old(live) && olds == Left(old(olds), address)
      ensures found <==> Taken(old(olds), address) != []
    {
      found := false;
      var prev: Listener?, cur := null, old_;
      ghost var was, m := olds, 0;
      ghost var taken: seq<Listener>, left: seq<Listener> := [], [];
      assert was[0..] == was && [] + live == live;
      while cur != null
        invariant Valid() && Within(olds, region)
        invariant Walking(was, m, |left|, old(live), taken, left, prev, cur)
        invariant Sorted(was, m, address, taken, left)
        invariant found <==> taken != []
        decreases |was| - m
      {
        var matched;
        prev, cur, matched, taken, left := WalkStep(prev, cur, address, was, m, old(live), taken, left, region);
        found := found || matched;
        m := m + 1;
      }
      assert was[..m] == was && olds[..|left|] == olds;
    }

    method FindLast() returns (last: Listener?)
      requires Valid()
      ensures last == Last(live)
    {
      last := head;
      ghost var k := 0;
      while last != null && last.next != null
        invariant live == [] ==> last == null
        invariant live != [] ==> k < |live| && last == live[k]
        decreases |live| - k
      {
        last := last.next;
        k := k + 1;
      }
    }

    /** A new listener at the end of the list. */
    method Append(last: Listener?, address: Address) returns (node: Listener)
      requires Valid() && last == Last(live)
      modifies this`head, this`live, (if last == null then {} else {last})`next
      ensures Valid() && fresh(node) && live == old(live) + [node]
      ensures Unbound(node, address)
    {
      node := new Listener(Some(address));
      AppendedApart(live, olds, node);
      if last == null {
        head := node;
      } else {
        last.next := node;
      }
      Appended(live, node);
      live := live + [node];
    }

    method AppendNext(last: Listener?, addresses: seq<Address>, n: nat, ghost base: seq<Listener>)
      returns (node: Listener)
      requires Valid() && last == Last(live) && n < |addresses| && Grown(live, base, addresses[..n])
      modifies this`head, this`live, (if last == null then {} else {last})`next
      ensures Valid() && fresh(node) && live == old(live) + [node] && Grown(live, base, addresses[..n + 1])
    {
      ghost var before := live;
      node := Append(last, addresses[n]);
      GrownMore(before, base, addresses, n, node);
    }

    /** New listeners for the addresses, in their order, until a socket cannot be
        created. */
    method AppendAll(addresses: seq<Address>, created: nat -> bool) returns (n: nat)
      requires Valid()
      modifies this`head, this`live, live`next
      ensures Valid() && n <= |addresses|
      ensures forall i: nat | i < n :: created(i)
      ensures n < |addresses| ==> !created(n)
      ensures Grown(live, old(live), addresses[..n])
      ensures forall i | |old(live)| <= i < |live| :: fresh(live[i])
    {
      n := 0;
      ghost var news: set<Listener> := {};
      var last := FindLast();
      while n < |addresses|
        invariant n <= |addresses| && Valid() && last == Last(live)
        invariant last == null || fresh(last) || last == Last(old(live))
        invariant CreatedTo(created, n)
        invariant Grown(live, old(live), addresses[..n])
        invariant fresh(news) && FromOn(live, |old(live)|, news)
      {
        if !created(n) {
          return;
        }
        CreatedMore(created, n);
        ghost var before := live;
        last := AppendNext(last, addresses, n, old(live));
        FromOnMore(before, |old(live)|, news, last);
        news := news + {last};
        n := n + 1;
      }
    }

    /** One Listen directive: the old listeners of that address, or new ones. */
    method AllocListener(d: Directive, ghost region: set<Listener>) returns (ok: bool)
      requires Valid() && Within(olds, region) && Within(live, region)
      modifies this, region`next
      ensures Valid() && olds == Left(old(olds), d.address)
      ensures Taken(old(olds), d.address) != [] ==> ok && live == Taken(old(olds), d.address) + old(live)
      ensures Taken(old(olds), d.address) == [] ==>
        var n := |live| - |old(live)|;
        && 0 <= n <= |d.resolved| && Grown(live, old(live), d.resolved[..n])
        && (forall i | |old(live)| <= i < |live| :: fresh(live[i]) && !live[i].active)
        && (ok <==> Feasible(d)) && (ok ==> n == |d.resolved|)
    {
      var found := TakeOld(d.address, region);
      if found {
        return true;
      }
      assert live == old(live);
      if !d.resolves {
        return false;
      }
      var n := AppendAll(d.resolved, d.created);
      GrownInactive(live, old(live), d.resolved[..n]);
      return n == |d.resolved|;
    }

    /** Binds the listeners that are not active; binds(k) says whether the k-th can
        be bound. The first that cannot is closed, and that is fatal. */
    method BindAll(binds: nat -> bool, ghost region: set<Listener>) returns (numOpen: nat, fatal: bool)
      requires Valid() && Within(live, region)
      modifies region`active, region`binds, region`closes
      ensures numOpen <= |live| && forall i: nat | i < numOpen :: old(live[i].active) || binds(i)
      ensures fatal <==> numOpen < |live|
      ensures fatal ==>
        && !old(live[numOpen].active) && !binds(numOpen)
        && Closed(live[numOpen], old(live[numOpen].closes))
      ensures forall i | 0 <= i < numOpen ::
        Bound(live[i], old(live[i].active), old(live[i].binds), old(live[i].closes))
      ensures forall i | numOpen < i < |live| ::
        SameSocket(live[i], old(live[i].active), old(live[i].binds), old(live[i].closes))
      ensures forall x | x in region && x !in live :: SameSocket(x, old(x.active), old(x.binds), old(x.closes))
    {
      numOpen, fatal := 0, false;
      var lr := head;
      while lr != null
        invariant numOpen <= |live| && lr == At(live, numOpen)
        invariant forall i: nat | i < numOpen :: old(live[i].active) || binds(i)
        invariant forall i | 0 <= i < numOpen ::
          Bound(live[i], old(live[i].active), old(live[i].binds), old(live[i].closes))
        invariant forall i | numOpen <= i < |live| ::
          SameSocket(live[i], old(live[i].active), old(live[i].binds), old(live[i].closes))
        invariant forall x | x in region && x !in live :: SameSocket(x, old(x.active), old(x.binds), old(x.closes))
        decreases |live| - numOpen
      {
        assert lr == live[numOpen];
        if !lr.active {
          fatal := MakeSock(lr, binds(numOpen));
          if fatal {
            return;
          }
        }
        numOpen := numOpen + 1;
        lr := lr.next;
      }
    }

    method MakeSock(lr: Listener, can: bool) returns (fatal: bool)
      modifies lr`active, lr`binds, lr`closes
      ensures fatal <==> !can
      ensures lr.binds == old(lr.binds) + 1 && lr.active == (old(lr.active) || can)
      ensures lr.closes == old(lr.closes) + if can then 0 else 1
    {
      lr.binds := lr.binds + 1;
      if can {
        lr.active := true;
      } else {
        lr.closes := lr.closes + 1;
      }
      fatal := !can;
    }

    /** Closes the listeners that were not asked for again. */
    method CloseOld(ghost region: set<Listener>)
      requires Valid() && Within(olds, region)
      modifies this`old_, this`olds, region`active, region`closes
      ensures Valid() && olds == []
      ensures forall i | 0 <= i < |old(olds)| :: Closed(old(olds)[i], old(olds[i].closes))
      ensures forall x | x in region && x !in old(olds) :: SameSocket(x, old(x.active), x.binds, old(x.closes))
    {
      var lr := old_;
      ghost var k := 0;
      while lr != null
        invariant k <= |olds| && lr == At(olds, k)
        invariant forall i | 0 <= i < k :: Closed(olds[i], old(olds[i].closes))
        invariant forall i | k <= i < |olds| :: olds[i].closes == old(olds[i].closes)
        invariant forall x | x in region && x !in olds :: SameSocket(x, old(x.active), x.binds, old(x.closes))
        decreases |olds| - k
        modifies region`active, region`closes
      {
        assert lr == olds[k];
        lr.closes := lr.closes + 1;
        lr.active := false;
        lr := lr.next;
        k := k + 1;
      }
      old_, olds := null, [];
    }

    /** Binds what is new and closes what is old. If a listener cannot be bound, the
        ones behind it and the old ones are left as they are. */
    method OpenListeners(binds: nat -> bool, ghost region: set<Listener>) returns (result: Opening, numOpen: nat)
      requires Valid() && Within(live, region) && Within(olds, region)
      modifies this`old_, this`olds, region`active, region`binds, region`closes
      ensures Valid() && live == old(live) && olds == if result.BindFailed? then old(olds) else []
      ensures result.BindFailed? <==> exists i: nat | i < |live| :: !old(live[i].active) && !binds(i)
      ensures numOpen <= |live| && (result.BindFailed? <==> numOpen < |live|)
      ensures result.NothingOpen? <==> live == []
      ensures forall i | 0 <= i < numOpen ::
        Bound(live[i], old(live[i].active), old(live[i].binds), old(live[i].closes))
      ensures result.BindFailed? ==> !old(live[numOpen].active) && Closed(live[numOpen], old(live[numOpen].closes))
      ensures forall i | numOpen < i < |live| ::
        SameSocket(live[i], old(live[i].active), old(live[i].binds), old(live[i].closes))
      ensures forall x | x in live && old(x.active) :: SameSocket(x, true, old(x.binds), old(x.closes))
      ensures !result.BindFailed? ==> forall x | x in live :: Bound(x, old(x.active), old(x.binds), old(x.closes))
      ensures forall x | x in old(olds) ::
        if result.BindFailed? then SameSocket(x, old(x.active), old(x.binds), old(x.closes))
        else Closed(x, old(x.closes))
    {
      var fatal;
      numOpen, fatal := BindAll(binds, region);
      assert forall i | 0 <= i < |olds| :: olds[i] in region && olds[i] !in live;
      if fatal {
        return BindFailed, numOpen;
      }
      assert forall i | 0 <= i < |live| :: live[i] in region && live[i] !in olds;
      CloseOld(region);
      result := if numOpen > 0 then Open else NothingOpen;
    }

    /** The listeners so far become the old ones; old ones left over from an open
        that failed are forgotten. */
    method PreConfig()
      requires Valid()
      modifies this
      ensures Valid() && live == [] && olds == old(live)
    {
      old_, olds := head, live;
      head, live := null, [];
    }

    /** One directive carries out one step of the plan. */
    method Listen(d: Directive, ghost was: seq<Listener>, ghost plan: seq<Slot>, ghost region: set<Listener>)
      returns (ok: bool)
      requires Valid() && Realised(live, plan, was) && AllIn(olds, was) && Within(olds, region) && Within(live, region)
      modifies this, region`next
      ensures Valid() && olds == Left(old(olds), d.address)
      ensures ok <==> Taken(old(olds), d.address) != [] || Feasible(d)
      ensures ok ==> Realised(live, Listed(plan, old(olds), d), was)
      ensures AllIn(old(live), live)
      ensures forall x | x in live :: x in old(live) || x in was || fresh(x)
    {
      ghost var olds0, live0 := olds, live;
      ghost var taken := Taken(olds, d.address);
      forall x | x in taken ensures x in olds0 {
        TakenHas(olds0, d.address, x);
      }
      ok := AllocListener(d, region);
      if taken != [] {
        RealisedFront(live0, plan, was, taken);
      } else {
        assert live[..|live0|] == live0;
        ghost var n := |live| - |live0|;
        RealisedEnd(live, live0, plan, was, d.resolved[..n]);
        assert ok ==> d.resolved[..n] == d.resolved;
      }
    }

    /** The lists after some directives, the earlier list having been was. */
    ghost predicate Configured(directives: seq<Directive>, was: seq<Listener>)
      reads this, live`active
    {
      Realised(live, Plan(was, directives), was) && olds == Remaining(was, directives)
    }

    /** Directive n. */
    method ListenNext(directives: seq<Directive>, n: nat, ghost was: seq<Listener>, ghost region: set<Listener>)
      returns (ok: bool)
      requires n < |directives| && Valid() && Configured(directives[..n], was)
      requires Within(was, region) && Within(live, region)
      modifies this, region`next
      ensures Valid() && (ok <==> Works(directives, n, was))
      ensures if ok then Configured(directives[..n + 1], was)
              else olds == Remaining(was, directives[..n]) && NoneLost(was, live, olds)
      ensures forall x | x in live :: x in old(live) || x in was || fresh(x)
    {
      ghost var live0 := live;
      Together(live, olds, directives[..n], was);
      PlanNext(was, directives, n);
      WorksIff(directives, n, was);
      RemainingWithin(was, directives[..n]);
      WithinToo(olds, was, region);
      ok := Listen(directives[n], was, Plan(was, directives[..n]), region);
      if !ok {
        NoneTaken(Remaining(was, directives[..n]), directives[n].address);
        KeptFrom(was, live0, live, olds);
      }
    }

    /** The Listen directives of a configuration: they carry out the plan, or stop at
        the first that does not work, and no earlier listener gets lost. */
    method Configure(directives: seq<Directive>, ghost was: seq<Listener>) returns (n: nat)
      requires Valid() && live == [] && olds == was
      modifies this, was`next
      ensures Valid() && n <= |directives|
      ensures n == |directives| <==> AllWork(directives, was)
      ensures n == |directives| ==> Configured(directives, was)
      ensures olds == Remaining(was, directives[..n])
      ensures NoneLost(was, live, olds)
      ensures forall x | x in live :: x in was || fresh(x)
    {
      n := 0;
      while n < |directives|
        invariant Valid() && n <= |directives| && Configured(directives[..n], was)
        invariant WorkTo(directives, n, was)
        invariant forall x | x in live :: x in was || fresh(x)
      {
        WorkMore(directives, n, was);
        var ok := ListenNext(directives, n, was, (set x | x in was) + set x | x in live);
        if !ok {
          return;
        }
        n := n + 1;
      }
      assert directives[..n] == directives;
      Together(live, olds, directives, was);
    }

    ghost function Active(): set<Listener>
      reads this, live
    {
      set x | x in live && x.active
    }

    /** Opens what the directives left in the lists. */
    method OpenPlanned(directives: seq<Directive>, ghost was: seq<Listener>, ghost active: set<Listener>,
                       binds: nat -> bool)
      returns (result: Opening)
      requires Valid() && Configured(directives, was)
      requires forall x | x in was :: x.active <==> x in active
      modifies this`old_, this`olds, was`active, was`binds, was`closes, live`active, live`binds, live`closes
      ensures Valid() && live == old(live) && result == Expected(Plan(was, directives), active, binds)
      ensures olds == if result.BindFailed? then old(olds) else []
      ensures !result.BindFailed? ==> forall i | 0 <= i < |live| :: live[i].active
      ensures forall x | x in was && old(x.active) && (result.BindFailed? || Asked(directives, x)) ::
        SameSocket(x, true, old(x.binds), old(x.closes))
      ensures !result.BindFailed? ==> forall x | x in was ::
        if Asked(directives, x) then Bound(x, old(x.active), old(x.binds), old(x.closes)) else Closed(x, old(x.closes))
    {
      ghost var region := (set x | x in was) + set x | x in live;
      Together(live, olds, directives, was);
      RemainingWithin(was, directives);
      WithinToo(olds, was, region);
      ExpectedIs(live, Plan(was, directives), was, active, binds);
      var numOpen;
      result, numOpen := OpenListeners(binds, region);
    }

    /** A restart. What it comes to, and the list it makes, follow from the earlier
        list, the directives and what can be bound. If it succeeds, every listener
        asked for again is kept with its socket as it was, every other one is closed
        once, and all in the list are active. If a directive or a bind fails, no
        listener is lost and no active one is touched. */
    method Restart(directives: seq<Directive>, binds: nat -> bool) returns (result: Outcome)
      requires Valid()
      modifies this, live
      ensures Valid()
      ensures result ==
        if !AllWork(directives, old(live)) then Refused
        else Ended(Expected(Plan(old(live), directives), old(Active()), binds))
      ensures result.Ended? ==>
        Follows(live, Plan(old(live), directives)) && forall x | x in live :: x in old(live) || fresh(x)
      ensures result.Ended? ==> forall x | x in old(live) :: x in live <==> NamedBy(directives, x)
      ensures result.Ended? && !result.opening.BindFailed? ==>
        && olds == []
        && (forall i | 0 <= i < |live| :: live[i].active)
        && forall x | x in old(live) ::
             if Asked(directives, x) then Bound(x, old(x.active), old(x.binds), old(x.closes))
             else Closed(x, old(x.closes))
      ensures result.Refused? || result.opening.BindFailed? ==>
        && NoneLost(old(live), live, olds)
        && forall x | x in old(live) && old(x.active) :: SameSocket(x, true, old(x.binds), old(x.closes))
      ensures result == Ended(BindFailed) ==> olds == Remaining(old(live), directives)
    {
      ghost var was := live;
      PreConfig();
      var n := Configure(directives, was);
      if n < |directives| {
        return Refused;
      }
      forall x | x in was ensures x in live <==> NamedBy(directives, x) {
        KeptIff(live, directives, was, x);
      }
      var opening := OpenPlanned(directives, was, old(Active()), binds);
      result := Ended(opening);
    }
  }

  ghost predicate AllIn(some: seq<Listener>, all: seq<Listener>) {
    forall x | x in some :: x in all
  }

  /** The nodes are those of the plan: the earlier ones it keeps, new ones for the
      addresses it adds. */
  ghost predicate Follows(nodes: seq<Listener>, plan: seq<Slot>) {
    |nodes| == |plan| && forall i | 0 <= i < |plan| ::
      if plan[i].Old? then nodes[i] == plan[i].x else nodes[i].address == Some(plan[i].address)
  }

  /** And the new ones are not active. */
  ghost predicate Realised(nodes: seq<Listener>, plan: seq<Slot>, was: seq<Listener>)
    reads nodes`active
  {
    && Follows(nodes, plan)
    && forall i | 0 <= i < |plan| :: if plan[i].Old? then nodes[i] in was else nodes[i] !in was && !nodes[i].active
  }

  lemma {:induction false} RealisedFront(nodes: seq<Listener>, plan: seq<Slot>, was: seq<Listener>,
                                         taken: seq<Listener>)
    requires Realised(nodes, plan, was) && AllIn(taken, was)
    ensures Realised(taken + nodes, OldSlots(taken) + plan, was)
  {
    var all, slots := taken + nodes, OldSlots(taken) + plan;
    forall i | 0 <= i < |slots|
      ensures if slots[i].Old? then all[i] == slots[i].x && all[i] in was
              else all[i].address == Some(slots[i].address) && all[i] !in was && !all[i].active
    {
      if i < |taken| {
        assert taken[i] in taken;
      } else {
        assert slots[i] == plan[i - |taken|] && all[i] == nodes[i - |taken|];
      }
    }
  }

  lemma {:induction false} RealisedEnd(all: seq<Listener>, nodes: seq<Listener>, plan: seq<Slot>, was: seq<Listener>,
                                       addresses: seq<Address>)
    requires Realised(nodes, plan, was) && Grown(all, nodes, addresses)
    requires forall i | |nodes| <= i < |all| :: all[i] !in was
    ensures Realised(all, plan + NewSlots(addresses), was)
  {
    var slots := plan + NewSlots(addresses);
    forall i | 0 <= i < |slots|
      ensures if slots[i].Old? then all[i] == slots[i].x && all[i] in was
              else all[i].address == Some(slots[i].address) && all[i] !in was && !all[i].active
    {
      if i < |nodes| {
        assert slots[i] == plan[i] && all[i] == all[..|nodes|][i];
      } else {
        assert Unbound(all[|nodes| + (i - |nodes|)], addresses[i - |nodes|]);
      }
    }
  }

  ghost predicate NoneLost(was: seq<Listener>, live: seq<Listener>, olds: seq<Listener>) {
    forall x | x in was :: x in live || x in olds
  }

  lemma {:induction false} KeptFrom(was: seq<Listener>, some: seq<Listener>, live: seq<Listener>, olds: seq<Listener>)
    requires NoneLost(was, some, olds) && AllIn(some, live)
    ensures NoneLost(was, live, olds)
  {}

  /** Every earlier listener is in exactly one of the lists. */
  lemma {:induction false} Together(live: seq<Listener>, olds: seq<Listener>, directives: seq<Directive>,
                                    was: seq<Listener>)
    requires Realised(live, Plan(was, directives), was) && olds == Remaining(was, directives)
    ensures forall x | x in was :: if Asked(directives, x) then x in live && x !in olds else x in olds && x !in live
    ensures NoneLost(was, live, olds)
  {
    var plan := Plan(was, directives);
    forall x | x in was
      ensures if Asked(directives, x) then x in live && x !in olds else x in olds && x !in live
    {
      RemainingHas(was, directives, x);
      PlanHas(was, directives, x);
      FollowedBy(live, plan, was, x);
    }
  }

  lemma {:induction false} FollowedBy(live: seq<Listener>, plan: seq<Slot>, was: seq<Listener>, x: Listener)
    requires Realised(live, plan, was) && x in was
    ensures x in live <==> Old(x) in plan
  {
    if x in live {
      var i :| 0 <= i < |live| && live[i] == x;
      assert plan[i] == Old(x);
    }
    if Old(x) in plan {
      var i :| 0 <= i < |plan| && plan[i] == Old(x);
      assert live[i] == x;
    }
  }

  lemma {:induction false} ExpectedIs(nodes: seq<Listener>, plan: seq<Slot>, was: seq<Listener>, active: set<Listener>,
                                      binds: nat -> bool)
    requires Realised(nodes, plan, was) && forall x | x in was :: x.active <==> x in active
    ensures Expected(plan, active, binds) ==
      if exists i: nat | i < |nodes| :: !nodes[i].active && !binds(i) then BindFailed
      else if nodes == [] then NothingOpen else Open
  {
    forall i: nat | i < |nodes| ensures nodes[i].active <==> plan[i].Old? && plan[i].x in active {
      if plan[i].Old? {
        assert nodes[i] in was;
      }
    }
  }

  lemma {:induction false} RemainingWithin(was: seq<Listener>, directives: seq<Directive>)
    ensures AllIn(Remaining(was, directives), was)
  {
    forall x | x in Remaining(was, directives) ensures x in was {
      RemainingHas(was, directives, x);
    }
  }

  /** A place in the list: for an earlier listener, or for a new one. */
  datatype Slot = Old(x: Listener) | New(address: Address)

  ghost function OldSlots(nodes: seq<Listener>): seq<Slot> {
    seq(|nodes|, i requires 0 <= i < |nodes| => Old(nodes[i]))
  }

  ghost function NewSlots(addresses: seq<Address>): seq<Slot> {
    seq(|addresses|, i requires 0 <= i < |addresses| => New(addresses[i]))
  }

  /** A directive puts the old listeners of its address in front, the last of them
      first; without any, it puts new ones at the end. */
  ghost function Listed(plan: seq<Slot>, olds: seq<Listener>, d: Directive): seq<Slot> {
    var taken := Taken(olds, d.address);
    if taken != [] then OldSlots(taken) + plan else plan + NewSlots(d.resolved)
  }

  /** The listeners that no directive asks for, in order. */
  function Remaining(was: seq<Listener>, directives: seq<Directive>): seq<Listener> {
    if directives == [] then was
    else
      var n := |directives| - 1;
      Left(Remaining(was, directives[..n]), directives[n].address)
  }

  /** The list that the directives make of the earlier one. */
  ghost function Plan(was: seq<Listener>, directives: seq<Directive>): seq<Slot> {
    if directives == [] then []
    else
      var n := |directives| - 1;
      Listed(Plan(was, directives[..n]), Remaining(was, directives[..n]), directives[n])
  }

  /** What opening comes to: whoever was active is, the others must be bound. */
  ghost function Expected(plan: seq<Slot>, active: set<Listener>, binds: nat -> bool): Opening {
    if exists i: nat | i < |plan| :: !(plan[i].Old? && plan[i].x in active) && !binds(i) then BindFailed
    else if plan == [] then NothingOpen
    else Open
  }

  lemma {:induction false} PlanNext(was: seq<Listener>, directives: seq<Directive>, n: nat)
    requires n < |directives|
    ensures
      var some, more := directives[..n], directives[..n + 1];
      && Plan(was, more) == Listed(Plan(was, some), Remaining(was, some), directives[n])
      && Remaining(was, more) == Left(Remaining(was, some), directives[n].address)
  {
    assert directives[..n + 1][..n] == directives[..n];
  }

  lemma {:induction false} AskedLast(directives: seq<Directive>, x: Listener)
    requires directives != []
    ensures
      var n := |directives| - 1;
      Asked(directives, x) <==> Asked(directives[..n], x) || Matches(x, directives[n].address)
  {
    var n := |directives| - 1;
    assert forall i | 0 <= i < n :: directives[..n][i] == directives[i];
  }

  lemma {:induction false} RemainingHas(was: seq<Listener>, directives: seq<Directive>, x: Listener)
    ensures x in Remaining(was, directives) <==> x in was && !Asked(directives, x)
  {
    if directives != [] {
      var n := |directives| - 1;
      RemainingHas(was, directives[..n], x);
      LeftHas(Remaining(was, directives[..n]), directives[n].address, x);
      AskedLast(directives, x);
    }
  }

  lemma {:induction false} ListedHas(plan: seq<Slot>, olds: seq<Listener>, d: Directive, x: Listener)
    ensures Old(x) in Listed(plan, olds, d) <==> Old(x) in plan || (x in olds && Matches(x, d.address))
  {
    var taken := Taken(olds, d.address);
    TakenHas(olds, d.address, x);
    assert forall i | 0 <= i < |taken| :: OldSlots(taken)[i] == Old(taken[i]);
  }

  lemma {:induction false} PlanHas(was: seq<Listener>, directives: seq<Directive>, x: Listener)
    ensures Old(x) in Plan(was, directives) <==> x in was && Asked(directives, x)
  {
    if directives != [] {
      var n := |directives| - 1;
      var some := directives[..n];
      PlanHas(was, some, x);
      RemainingHas(was, some, x);
      ListedHas(Plan(was, some), Remaining(was, some), directives[n], x);
      AskedLast(directives, x);
    }
  }

  /** A directive finds an old listener exactly if no earlier one has taken it. */
  lemma {:induction false} WorksIff(directives: seq<Directive>, n: nat, was: seq<Listener>)
    requires n < |directives|
    ensures
      var left := Remaining(was, directives[..n]);
      Works(directives, n, was) <==> Feasible(directives[n]) || Taken(left, directives[n].address) != []
  {
    var left, address := Remaining(was, directives[..n]), directives[n].address;
    if Taken(left, address) != [] {
      var x := Taken(left, address)[0];
      TakenHas(left, address, x);
      RemainingHas(was, directives[..n], x);
    } else if x :| x in was && Matches(x, address) && !Asked(directives[..n], x) {
      TakenHas(left, address, x);
      RemainingHas(was, directives[..n], x);
    }
  }

  lemma {:induction false} NoneTaken(nodes: seq<Listener>, address: Address)
    requires Taken(nodes, address) == []
    ensures Left(nodes, address) == nodes
  {
    if nodes != [] {
      NoneTaken(nodes[..|nodes| - 1], address);
    }
  }

  /** New listeners, not yet bound, after the ones there were. */
  ghost predicate Grown(nodes: seq<Listener>, base: seq<Listener>, addresses: seq<Address>)
    reads nodes`active, nodes`binds, nodes`closes
  {
    && |nodes| == |base| + |addresses| && nodes[..|base|] == base
    && forall i | 0 <= i < |addresses| :: Unbound(nodes[|base| + i], addresses[i])
  }

  ghost predicate CreatedTo(created: nat -> bool, n: nat) {
    forall i: nat | i < n :: created(i)
  }

  lemma {:induction false} CreatedMore(created: nat -> bool, n: nat)
    requires CreatedTo(created, n) && created(n)
    ensures CreatedTo(created, n + 1)
  {}

  ghost predicate FromOn(nodes: seq<Listener>, k: nat, news: set<Listener>) {
    forall i | k <= i < |nodes| :: nodes[i] in news
  }

  lemma {:induction false} FromOnMore(nodes: seq<Listener>, k: nat, news: set<Listener>, node: Listener)
    requires FromOn(nodes, k, news)
    ensures FromOn(nodes + [node], k, news + {node})
  {}

  lemma {:induction false} GrownInactive(nodes: seq<Listener>, base: seq<Listener>, addresses: seq<Address>)
    requires Grown(nodes, base, addresses)
    ensures forall i | |base| <= i < |nodes| :: !nodes[i].active
  {
    forall i | |base| <= i < |nodes| ensures !nodes[i].active {
      assert Unbound(nodes[|base| + (i - |base|)], addresses[i - |base|]);
    }
  }

  lemma {:induction false} GrownMore(nodes: seq<Listener>, base: seq<Listener>, addresses: seq<Address>, n: nat,
                                     node: Listener)
    requires n < |addresses| && Grown(nodes, base, addresses[..n]) && Unbound(node, addresses[n])
    ensures Grown(nodes + [node], base, addresses[..n + 1])
  {
    var seen, all := addresses[..n + 1], nodes + [node];
    forall i | 0 <= i <= n ensures Unbound(all[|base| + i], seen[i]) {
      if i < n {
        assert Unbound(nodes[|base| + i], addresses[..n][i]);
      }
    }
  }

  /** Active; bound once more if it was not, and not closed. */
  ghost predicate Bound(x: Listener, active: bool, binds: nat, closes: nat)
    reads x`active, x`binds, x`closes
  {
    x.active && x.closes == closes && x.binds == binds + if active then 0 else 1
  }

  ghost predicate Closed(x: Listener, closes: nat)
    reads x`active, x`closes
  {
    !x.active && x.closes == closes + 1
  }

  ghost predicate SameSocket(x: Listener, active: bool, binds: nat, closes: nat)
    reads x`active, x`binds, x`closes
  {
    x.active == active && x.binds == binds && x.closes == closes
  }

  ghost predicate Unbound(x: Listener, address: Address)
    reads x`active, x`binds, x`closes
  {
    x.address == Some(address) && !x.active && x.binds == 0 && x.closes == 0
  }

  ghost function Last(nodes: seq<Listener>): Listener? {
    if nodes == [] then null else nodes[|nodes| - 1]
  }

  lemma {:induction false} Appended(nodes: seq<Listener>, node: Listener)
    requires forall i {:trigger nodes[i].next} | 0 <= i < |nodes| - 1 :: nodes[i].next == At(nodes, i + 1)
    requires node.next == null && (nodes != [] ==> nodes[|nodes| - 1].next == node)
    ensures Chained(nodes + [node])
  {
    var all := nodes + [node];
    forall i {:trigger all[i].next} | 0 <= i < |all| ensures all[i].next == At(all, i + 1) {
      assert i < |nodes| ==> all[i] == nodes[i];
    }
  }

  ghost predicate Within(nodes: seq<Listener>, region: set<Listener>) {
    forall i | 0 <= i < |nodes| :: nodes[i] in region
  }

  lemma {:induction false} WithinToo(some: seq<Listener>, all: seq<Listener>, region: set<Listener>)
    requires AllIn(some, all) && Within(all, region)
    ensures Within(some, region)
  {
    forall i | 0 <= i < |some| ensures some[i] in region {
      assert some[i] in all;
    }
  }

  lemma {:induction false} LeftHas(nodes: seq<Listener>, address: Address, x: Listener)
    ensures x in Left(nodes, address) <==> x in nodes && !Matches(x, address)
  {
    if nodes != [] {
      var rest := nodes[..|nodes| - 1];
      LeftHas(rest, address, x);
      assert nodes == rest + [nodes[|nodes| - 1]];
    }
  }

  lemma {:induction false} TakenHas(nodes: seq<Listener>, address: Address, x: Listener)
    ensures x in Taken(nodes, address) <==> x in nodes && Matches(x, address)
  {
    if nodes != [] {
      var rest := nodes[..|nodes| - 1];
      TakenHas(rest, address, x);
      assert nodes == rest + [nodes[|nodes| - 1]];
    }
  }

  /** Directive n finds an old listener that no directive before it has taken, or
      new ones can be created. */
  ghost predicate Works(directives: seq<Directive>, n: nat, was: seq<Listener>)
    requires n < |directives|
  {
    Feasible(directives[n]) ||
    exists x | x in was :: Matches(x, directives[n].address) && !Asked(directives[..n], x)
  }

  ghost predicate WorkTo(directives: seq<Directive>, n: nat, was: seq<Listener>)
    requires n <= |directives|
  {
    forall i | 0 <= i < n :: Works(directives, i, was)
  }

  ghost predicate AllWork(directives: seq<Directive>, was: seq<Listener>) {
    WorkTo(directives, |directives|, was)
  }

  lemma {:induction false} WorkMore(directives: seq<Directive>, n: nat, was: seq<Listener>)
    requires n < |directives| && WorkTo(directives, n, was)
    ensures if Works(directives, n, was) then WorkTo(directives, n + 1, was) else !AllWork(directives, was)
  {}

  /** A directive names the listener's address. */
  predicate Asked(directives: seq<Directive>, x: Listener) {
    exists i | 0 <= i < |directives| :: Matches(x, directives[i].address)
  }

  /** The old record is for the address asked for. */
  predicate Matches(x: Listener, address: Address) {
    x.address == Some(address)
  }

  /** How the directive compares them: some records have no address; ports are equal,
      and either both have no host name or both have one and these are equal. */
  predicate Reusable(sa: Option<Address>, address: Address): (same: bool)
    ensures same <==> sa == Some(address)
  {
    && sa.Some? && address.port == sa.value.port
    && ((address.hostname.None? && sa.value.hostname.None?)
        || (address.hostname.Some? && sa.value.hostname.Some? && address.hostname.value == sa.value.hostname.value))
  }

  /** A directive has the listener's host name and port. */
  predicate NamedBy(directives: seq<Directive>, x: Listener) {
    x.address.Some? && exists i | 0 <= i < |directives| ::
      directives[i].address.hostname == x.address.value.hostname && directives[i].address.port == x.address.value.port
  }

  /** Exactly these are kept. */
  lemma {:induction false} KeptIff(nodes: seq<Listener>, directives: seq<Directive>, was: seq<Listener>, x: Listener)
    requires Realised(nodes, Plan(was, directives), was) && x in was
    ensures x in nodes <==> NamedBy(directives, x)
  {
    var plan := Plan(was, directives);
    PlanHas(was, directives, x);
    if Old(x) in plan {
      var i :| 0 <= i < |plan| && plan[i] == Old(x);
      assert nodes[i] == x;
    }
    if x in nodes {
      var i :| 0 <= i < |nodes| && nodes[i] == x;
      assert plan[i] == Old(x);
    }
  }

  /** The matching listeners, last first. */
  function Taken(nodes: seq<Listener>, address: Address): seq<Listener> {
    if nodes == [] then []
    else
      var x := nodes[|nodes| - 1];
      (if Matches(x, address) then [x] else []) + Taken(nodes[..|nodes| - 1], address)
  }

  /** The others, in order. */
  function Left(nodes: seq<Listener>, address: Address): seq<Listener> {
    if nodes == [] then []
    else
      var x := nodes[|nodes| - 1];
      Left(nodes[..|nodes| - 1], address) + (if Matches(x, address) then [] else [x])
  }

  /** The first m listeners, by whether they match. */
  ghost predicate Sorted(nodes: seq<Listener>, m: nat, address: Address, taken: seq<Listener>, left: seq<Listener>) {
    m <= |nodes| && taken == Taken(nodes[..m], address) && left == Left(nodes[..m], address)
  }

  lemma {:induction false} SortedMore(nodes: seq<Listener>, m: nat, address: Address, taken: seq<Listener>,
                                      left: seq<Listener>)
    requires m < |nodes| && Sorted(nodes, m, address, taken, left)
    ensures if Matches(nodes[m], address) then Sorted(nodes, m + 1, address, [nodes[m]] + taken, left)
            else Sorted(nodes, m + 1, address, taken, left + [nodes[m]])
  {
    assert nodes[..m + 1][..m] == nodes[..m];
  }
}
