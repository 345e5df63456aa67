/** The delivery-planning problem: m vehicles of capacity k move in a
    y-dimensional space, picking up n packages and delivering them. */
module Delivery {

  datatype Option<T> = None | Some(value: T)

  type Position = seq<int>

  datatype Vehicle = Vehicle(position: Position, index: int, room: int)

  datatype Package = Package(position: Position, destination: Position, index: int, carrier: Option<int>)

  /** A search state: vehicles and the packages not yet delivered, keyed by
      their indices. */
  datatype State = State(vehicles: map<int, Vehicle>, packages: map<int, Package>)

  /** The plan step that labels a successor, by vehicle and package key. */
  datatype Move = Deliver(vehicle: int, package: int) | PickUp(vehicle: int, package: int) | Return(vehicle: int)

  datatype Successor = Successor(state: State, move: Move)

  /** The number of values in range(x). */
  function Span(x: int): (r: nat)
    ensures x <= 0 ==> r == 0
    ensures x >= 0 ==> r == x
  {
    if x < 0 then 0 else x
  }

  /** The all-zero position of dimension y. */
  function Origin(y: int): (r: Position)
    ensures |r| == Span(y)
    ensures forall i :: 0 <= i < |r| ==> r[i] == 0
  {
    seq(Span(y), _ => 0)
  }

  /** The keys of the packages that vehicle i carries. */
  ghost function Carried(packages: map<int, Package>, i: int): (r: set<int>) {
    set j | j in packages && packages[j].carrier == Some(i)
  }

  /** Some element of a non-empty set. */
  method Pick<T>(s: set<T>) returns (x: T)
    requires s != {}
    ensures x in s
  {
    x :| x in s;
  }

  /** Some element of a non-empty set, for proofs: a lemma's result is ghost
      and cannot feed the compiled loops, which use Pick instead. */
  lemma SomeElement<T>(s: set<T>) returns (x: T)
    requires |s| != 0
    ensures x in s
  {
    x :| x in s;
  }

  /** The vehicle table of a new problem: vehicle i at the origin with room k,
      for i in range(m). */
  method NewVehicles(m: int, k: int, y: int) returns (vehicles: map<int, Vehicle>)
    ensures forall i :: i in vehicles <==> 0 <= i < m
    ensures forall i :: i in vehicles ==> vehicles[i] == Vehicle(Origin(y), i, k)
  {
    var origin := Origin(y);
    vehicles := map[];
    var i := 0;
    while i < m
      invariant 0 <= i <= Span(m)
      invariant forall t :: t in vehicles <==> 0 <= t < i
      invariant forall t :: t in vehicles ==> vehicles[t] == Vehicle(origin, t, k)
    {
      vehicles := vehicles[i := Vehicle(origin, i, k)];
      i := i + 1;
    }
  }

  /** The package table of a new problem: package j with the j-th source and
      destination, no carrier. */
  method NewPackages(packs: seq<(Position, Position)>) returns (packages: map<int, Package>)
    ensures forall j :: j in packages <==> 0 <= j < |packs|
    ensures forall j :: j in packages ==> packages[j] == Package(packs[j].0, packs[j].1, j, None)
  {
    packages := map[];
    var j := 0;
    while j < |packs|
      invariant 0 <= j <= |packs|
      invariant forall t :: t in packages <==> 0 <= t < j
      invariant forall t :: t in packages ==> packages[t] == Package(packs[t].0, packs[t].1, t, None)
    {
      packages := packages[j := Package(packs[j].0, packs[j].1, j, None)];
      j := j + 1;
    }
  }

  class Problem {
    const m: int
    const n: int
    const k: int
    const y: int
    const initState: State

    /** Vehicles 0..m-1 at the origin with room k; package j has the j-th
        source and destination and no carrier. */
    function InitialState(packs: seq<(Position, Position)>): (r: State) {
      State(map i | 0 <= i < m :: Vehicle(Origin(y), i, k),
            map j | 0 <= j < |packs| :: Package(packs[j].0, packs[j].1, j, None))
    }

    constructor (m: int, n: int, k: int, y: int, packs: seq<(Position, Position)>)
      ensures this.m == m && this.n == n && this.k == k && this.y == y
      ensures initState == InitialState(packs)
    {
      this.m := m;
      this.n := n;
      this.k := k;
      this.y := y;
      var vehicles := NewVehicles(m, k, y);
      var packages := NewPackages(packs);
      initState := State(vehicles, packages);
    }

    /** The invariant of every reachable state: vehicles 0..m-1 and packages
        below n, each stored under its own index; carriers are vehicles; a
        vehicle's room is k less the packages it carries, and never negative. */
    ghost predicate Valid(st: State) {
      && (forall i :: i in st.vehicles <==> 0 <= i < m)
      && (forall i :: i in st.vehicles ==>
            && st.vehicles[i].index == i
            && 0 <= st.vehicles[i].room
            && st.vehicles[i].room == k - |Carried(st.packages, i)|)
      && (forall j :: j in st.packages ==>
            && 0 <= j < n
            && st.packages[j].index == j
            && (st.packages[j].carrier.Some? ==> st.packages[j].carrier.value in st.vehicles))
    }

    /** When each kind of move is allowed, stated on its own. */
    predicate Enabled(st: State, mv: Move) {
      match mv
      case Deliver(kv, kp) =>
        kv in st.vehicles && kp in st.packages && st.packages[kp].carrier == Some(st.vehicles[kv].index)
      case PickUp(kv, kp) =>
        kv in st.vehicles && kp in st.packages && st.vehicles[kv].room > 0 && st.packages[kp].carrier == None
      case Return(kv) =>
        kv in st.vehicles && st.vehicles[kv].room == k && st.vehicles[kv].position != Origin(y)
    }

    /** The state a move leads to; only copies of the parent's tables are
        written, so the parent is left as it was. */
    function Apply(st: State, mv: Move): (r: State)
      requires Enabled(st, mv)
      ensures forall i :: i in st.vehicles && i != st.vehicles[mv.vehicle].index ==>
                i in r.vehicles && r.vehicles[i] == st.vehicles[i]
      ensures mv.Return? ==> r.packages == st.packages
    {
      var v := st.vehicles[mv.vehicle];
      match mv
      case Deliver(_, kp) =>
        var p := st.packages[kp];
        State(st.vehicles[v.index := Vehicle(p.destination, v.index, v.room + 1)], st.packages - {p.index})
      case PickUp(_, kp) =>
        var p := st.packages[kp];
        State(st.vehicles[v.index := Vehicle(p.position, v.index, v.room - 1)],
              st.packages[p.index := Package(p.position, p.destination, p.index, Some(v.index))])
      case Return(_) =>
        State(st.vehicles[v.index := Vehicle(Origin(y), v.index, v.room)], st.packages)
    }

    /** The move, if any, that vehicle kv makes with package kp, in the
        order the branches are tried. */
    function PairMove(st: State, kv: int, kp: int): (r: seq<Move>)
      ensures |r| <= 1
      ensures forall mv :: mv in r ==> (mv == Deliver(kv, kp) || mv == PickUp(kv, kp)) && Enabled(st, mv)
      ensures Enabled(st, Deliver(kv, kp)) ==> r == [Deliver(kv, kp)]
      ensures Enabled(st, PickUp(kv, kp)) ==> r == [PickUp(kv, kp)]
    {
      if kv !in st.vehicles || kp !in st.packages then []
      else
        var v := st.vehicles[kv];
        var p := st.packages[kp];
        if p.carrier != Some(v.index) && v.room <= 0 then []
        else if p.carrier == Some(v.index) then [Deliver(kv, kp)]
        else if v.room > 0 && p.carrier == None then [PickUp(kv, kp)]
        else []
    }

    /** The return-to-origin move of vehicle kv, if it has one. */
    function ReturnMove(st: State, kv: int): (r: seq<Move>)
      ensures r == [] || r == [Return(kv)]
      ensures r != [] <==> Enabled(st, Return(kv))
    {
      if kv in st.vehicles && st.vehicles[kv].room == k && st.vehicles[kv].position != Origin(y)
      then [Return(kv)] else []
    }

    /** Vehicle kv's package moves for package keys below j, in key order. */
    function PackageMoves(st: State, kv: int, j: int): (r: seq<Move>)
      decreases j
    {
      if j <= 0 then [] else PackageMoves(st, kv, j - 1) + PairMove(st, kv, j - 1)
    }

    /** The moves of vehicles with keys below i: each vehicle's package moves,
        then its return. */
    function VehicleMoves(st: State, i: int): (r: seq<Move>)
      decreases i
    {
      if i <= 0 then []
      else VehicleMoves(st, i - 1) + PackageMoves(st, i - 1, n) + ReturnMove(st, i - 1)
    }

    /** All moves from st, in the order successors lists them. */
    function Moves(st: State): (r: seq<Move>) {
      VehicleMoves(st, m)
    }

    /** r pairs each of the moves mvs with the state it leads to. */
    ghost predicate Lists(st: State, r: seq<Successor>, mvs: seq<Move>) {
      |r| == |mvs| && forall t :: 0 <= t < |r| ==> Enabled(st, mvs[t]) && r[t] == Successor(Apply(st, mvs[t]), mvs[t])
    }

    /** A goal state: every vehicle at the origin and no package left. */
    predicate Goal(st: State) {
      (forall kv :: kv in st.vehicles ==> st.vehicles[kv].position == Origin(y)) && |st.packages| == 0
    }

    lemma ListsConcat(st: State, r: seq<Successor>, mvs: seq<Move>, r': seq<Successor>, mvs': seq<Move>)
      requires Lists(st, r, mvs) && Lists(st, r', mvs')
      ensures Lists(st, r + r', mvs + mvs')
    {
      forall t | 0 <= t < |r + r'|
        ensures Enabled(st, (mvs + mvs')[t]) && (r + r')[t] == Successor(Apply(st, (mvs + mvs')[t]), (mvs + mvs')[t])
      {
        if t >= |r| {
          assert (r + r')[t] == r'[t - |r|] && (mvs + mvs')[t] == mvs'[t - |r|];
        }
      }
    }

    /** A delivery drops the package from its carrier's load and leaves
        every other vehicle's load as it was. */
    lemma DeliverCarried(packages: map<int, Package>, kp: int, kv: int)
      requires kp in packages && packages[kp].carrier == Some(kv)
      ensures |Carried(packages - {kp}, kv)| == |Carried(packages, kv)| - 1
      ensures forall i :: i != kv ==> Carried(packages - {kp}, i) == Carried(packages, i)
    {
      assert Carried(packages - {kp}, kv) == Carried(packages, kv) - {kp};
    }

    /** A pick-up adds the package to its new carrier's load and leaves every
        other vehicle's load as it was. */
    lemma PickUpCarried(packages: map<int, Package>, kp: int, kv: int, p: Package)
      requires kp in packages && packages[kp].carrier == None && p.carrier == Some(kv)
      ensures |Carried(packages[kp := p], kv)| == |Carried(packages, kv)| + 1
      ensures forall i :: i != kv ==> Carried(packages[kp := p], i) == Carried(packages, i)
    {
      assert Carried(packages[kp := p], kv) == Carried(packages, kv) + {kp};
    }

    /** Every enabled move from a valid state leads to a valid state; in
        particular the moved vehicle's room stays within [0, k]. */
    lemma ApplyKeepsValid(st: State, mv: Move)
      requires Valid(st) && Enabled(st, mv)
      ensures Valid(Apply(st, mv))
      ensures 0 <= Apply(st, mv).vehicles[mv.vehicle].room <= k
    {
      var r := Apply(st, mv);
      match mv
      case Deliver(kv, kp) =>
        assert kp in Carried(st.packages, kv);
        DeliverCarried(st.packages, kp, kv);
      case PickUp(kv, kp) =>
        PickUpCarried(st.packages, kp, kv, r.packages[kp]);
      case Return(kv) =>
    }

    /** Every listed successor of a valid state is valid. */
    lemma ListedAreValid(st: State, r: seq<Successor>, mvs: seq<Move>)
      requires Valid(st) && Lists(st, r, mvs)
      ensures forall t :: 0 <= t < |r| ==> Valid(r[t].state)
    {
      forall t | 0 <= t < |r|
        ensures Valid(r[t].state)
      {
        ApplyKeepsValid(st, mvs[t]);
      }
    }

    /** Each move vehicle kv makes with packages below j is an enabled
        delivery or pick-up of one of those packages. */
    lemma {:induction false} PackageMovesSound(st: State, kv: int, j: int)
      ensures forall mv :: mv in PackageMoves(st, kv, j) ==>
                Enabled(st, mv) && !mv.Return? && mv.vehicle == kv && 0 <= mv.package < j
      decreases j
    {
      if j > 0 {
        PackageMovesSound(st, kv, j - 1);
      }
    }

    /** Each enabled delivery or pick-up by vehicle kv of a package below j
        is among its moves. */
    lemma {:induction false} PackageMovesComplete(st: State, kv: int, j: int, mv: Move)
      requires Enabled(st, mv) && !mv.Return? && mv.vehicle == kv && 0 <= mv.package < j
      ensures mv in PackageMoves(st, kv, j)
      decreases j
    {
      if mv.package < j - 1 {
        PackageMovesComplete(st, kv, j - 1, mv);
      } else {
        assert PairMove(st, kv, j - 1) == [mv];
      }
    }

    lemma {:induction false} VehicleMovesSound(st: State, i: int)
      ensures forall mv :: mv in VehicleMoves(st, i) ==> Enabled(st, mv) && 0 <= mv.vehicle < i
      decreases i
    {
      if i > 0 {
        VehicleMovesSound(st, i - 1);
        PackageMovesSound(st, i - 1, n);
        var before, own, back := VehicleMoves(st, i - 1), PackageMoves(st, i - 1, n), ReturnMove(st, i - 1);
        assert VehicleMoves(st, i) == before + own + back;
        forall mv | mv in before + own + back
          ensures Enabled(st, mv) && 0 <= mv.vehicle < i
        {
          if mv !in before && mv !in own {
            assert mv in back;
          }
        }
      }
    }

    lemma {:induction false} VehicleMovesComplete(st: State, i: int, mv: Move)
      requires Enabled(st, mv) && 0 <= mv.vehicle < i
      requires !mv.Return? ==> mv.package < n
      requires !mv.Return? ==> 0 <= mv.package
      ensures mv in VehicleMoves(st, i)
      decreases i
    {
      if mv.vehicle < i - 1 {
        VehicleMovesComplete(st, i - 1, mv);
      } else if mv.Return? {
        assert ReturnMove(st, i - 1) == [mv];
      } else {
        PackageMovesComplete(st, i - 1, n, mv);
      }
    }

    /** In a valid state, the moves successors lists are exactly the enabled
        moves. */
    lemma MovesAreEnabled(st: State, mv: Move)
      requires Valid(st)
      ensures mv in Moves(st) <==> Enabled(st, mv)
    {
      VehicleMovesSound(st, m);
      if Enabled(st, mv) {
        VehicleMovesComplete(st, m, mv);
      }
    }

    /** What each move does, and that it does nothing else: the moved
        vehicle's entry changes and no other vehicle's does; at most the moved
        package's entry changes; a delivery removes one package, the other
        moves keep the count. */
    lemma ApplyEffect(st: State, mv: Move)
      requires Valid(st) && Enabled(st, mv)
      ensures var r := Apply(st, mv);
        && r.vehicles.Keys == st.vehicles.Keys
        && r.vehicles[mv.vehicle] != st.vehicles[mv.vehicle]
        && (forall kv :: kv in st.vehicles && kv != mv.vehicle ==> r.vehicles[kv] == st.vehicles[kv])
        && (forall kp :: (mv.Return? || kp != mv.package) ==>
              (kp in r.packages <==> kp in st.packages) && (kp in st.packages ==> r.packages[kp] == st.packages[kp]))
        && |r.packages| == (if mv.Deliver? then |st.packages| - 1 else |st.packages|)
      ensures var r := Apply(st, mv);
        match mv
        case Deliver(kv, kp) =>
          r.vehicles[kv] == Vehicle(st.packages[kp].destination, kv, st.vehicles[kv].room + 1) && kp !in r.packages
        case PickUp(kv, kp) =>
          && r.vehicles[kv] == Vehicle(st.packages[kp].position, kv, st.vehicles[kv].room - 1)
          && r.packages[kp] == st.packages[kp].(carrier := Some(kv))
        case Return(kv) =>
          r.vehicles[kv] == st.vehicles[kv].(position := Origin(y))
    {
    }

    /** With room for at least one package and at least one vehicle, a valid
        state has no successor exactly when it is a goal: the search never
        gets stuck short of the goal. */
    lemma NoMovesIffGoal(st: State)
      requires Valid(st) && k > 0 && m > 0
      ensures Moves(st) == [] <==> Goal(st)
    {
      if Goal(st) {
        if Moves(st) != [] {
          MovesAreEnabled(st, Moves(st)[0]);
          assert false;
        }
      } else {
        var mv := EnabledMove(st);
        MovesAreEnabled(st, mv);
      }
    }

    /** A move enabled in a valid state that is not a goal. */
    lemma EnabledMove(st: State) returns (mv: Move)
      requires Valid(st) && k > 0 && m > 0 && !Goal(st)
      ensures Enabled(st, mv)
    {
      if exists kv :: kv in st.vehicles && st.vehicles[kv].position != Origin(y) {
        var kv :| kv in st.vehicles && st.vehicles[kv].position != Origin(y);
        if st.vehicles[kv].room == k {
          mv := Return(kv);
        } else {
          mv := CarriedDelivery(st, kv);
        }
      } else {
        var kp := SomeElement(st.packages.Keys);
        var p := st.packages[kp];
        if p.carrier.Some? {
          mv := Deliver(p.carrier.value, kp);
        } else if st.vehicles[0].room > 0 {
          mv := PickUp(0, kp);
        } else {
          mv := CarriedDelivery(st, 0);
        }
      }
    }

    /** A vehicle with less than k room carries a package it can deliver. */
    lemma CarriedDelivery(st: State, kv: int) returns (mv: Move)
      requires Valid(st) && kv in st.vehicles && st.vehicles[kv].room < k
      ensures Enabled(st, mv) && mv.Deliver? && mv.vehicle == kv
    {
      var carried := Carried(st.packages, kv);
      assert |carried| != 0;
      var kp := SomeElement(carried);
      mv := Deliver(kv, kp);
    }

    /** The initial state satisfies the invariant when capacities are not
        negative and there are at most n packages. */
    lemma InitialStateValid(packs: seq<(Position, Position)>)
      requires 0 <= k && |packs| <= n
      ensures Valid(InitialState(packs))
    {
    }

    /** The initial state is a goal exactly when there are no packages. */
    lemma InitialStateGoal(packs: seq<(Position, Position)>)
      ensures Goal(InitialState(packs)) <==> packs == []
    {
      if packs != [] {
        assert 0 in InitialState(packs).packages;
      }
    }

    /** The body of successors' inner loop: the successor, if any, that
        vehicle i reaches with package j. Both rooms it can produce lie in
        [0, k], as the source asserts. */
    method PairSuccessor(st: State, i: int, j: int) returns (r: seq<Successor>)
      requires Valid(st) && i in st.vehicles
      ensures Lists(st, r, PairMove(st, i, j))
    {
      r := [];
      var v := st.vehicles[i];
      if j in st.packages {
        var p := st.packages[j];
        if p.carrier != Some(v.index) && v.room <= 0 {
        } else if p.carrier == Some(v.index) {
          var carrier := Vehicle(p.destination, v.index, v.room + 1);
          assert j in Carried(st.packages, i);
          assert 0 <= carrier.room <= k;
          var vehicles := st.vehicles[v.index := carrier];
          var packages := st.packages - {p.index};
          r := [Successor(State(vehicles, packages), Deliver(i, j))];
        } else if v.room > 0 && p.carrier == None {
          var carrier := Vehicle(p.position, v.index, v.room - 1);
          assert 0 <= carrier.room <= k;
          var vehicles := st.vehicles[v.index := carrier];
          var packages := st.packages[p.index := Package(p.position, p.destination, p.index, Some(v.index))];
          r := [Successor(State(vehicles, packages), PickUp(i, j))];
        }
      }
    }

    /** The return-to-origin successor of vehicle i, if it has one. */
    method ReturnSuccessor(st: State, i: int) returns (r: seq<Successor>)
      requires Valid(st) && i in st.vehicles
      ensures Lists(st, r, ReturnMove(st, i))
    {
      r := [];
      var v := st.vehicles[i];
      if v.room == k && v.position != Origin(y) {
        var garage := Origin(y);
        var vehicles := st.vehicles[v.index := Vehicle(garage, v.index, v.room)];
        r := [Successor(State(vehicles, st.packages), Return(i))];
      }
    }

    /** One pass of successors' outer loop: vehicle i's moves with each
        package in key order, then its return to the origin. */
    method VehicleSuccessors(st: State, i: int) returns (r: seq<Successor>)
      requires Valid(st) && i in st.vehicles
      ensures Lists(st, r, PackageMoves(st, i, n) + ReturnMove(st, i))
    {
      r := [];
      var j := 0;
      while j < n
        invariant 0 <= j <= Span(n)
        invariant Lists(st, r, PackageMoves(st, i, j))
      {
        var s := PairSuccessor(st, i, j);
        ListsConcat(st, r, PackageMoves(st, i, j), s, PairMove(st, i, j));
        r := r + s;
        j := j + 1;
      }
      assert PackageMoves(st, i, j) == PackageMoves(st, i, n);
      var s := ReturnSuccessor(st, i);
      ListsConcat(st, r, PackageMoves(st, i, n), s, ReturnMove(st, i));
      r := r + s;
    }

    /** The successors of st, each with the move that produced it, in the
        order the vehicles and then the packages are visited; every successor
        keeps the invariant, so every vehicle's room stays within [0, k]. */
    method Successors(st: State) returns (r: seq<Successor>)
      requires Valid(st)
      ensures Lists(st, r, Moves(st))
      ensures forall t :: 0 <= t < |r| ==> Valid(r[t].state)
    {
      r := [];
      var i := 0;
      while i < m
        invariant 0 <= i <= Span(m)
        invariant Lists(st, r, VehicleMoves(st, i))
      {
        var s := VehicleSuccessors(st, i);
        ListsConcat(st, r, VehicleMoves(st, i), s, PackageMoves(st, i, n) + ReturnMove(st, i));
        assert VehicleMoves(st, i) + (PackageMoves(st, i, n) + ReturnMove(st, i)) == VehicleMoves(st, i + 1);
        r := r + s;
        i := i + 1;
      }
      ListedAreValid(st, r, Moves(st));
    }

    /** isGoal: a scan of the vehicles that stops at the first one away from
        the origin, then a check that no package is left. */
    method IsGoal(st: State) returns (b: bool)
      ensures b <==> Goal(st)
    {
      var origin := Origin(y);
      var keys := st.vehicles.Keys;
      while keys != {}
        invariant keys <= st.vehicles.Keys
        invariant forall kv :: kv in st.vehicles && kv !in keys ==> st.vehicles[kv].position == origin
        decreases |keys|
      {
        var kv := Pick(keys);
        if st.vehicles[kv].position != origin {
          return false;
        }
        keys := keys - {kv};
      }
      if |st.packages| != 0 {
        return false;
      }
      return true;
    }
  }
}
