/** A train riding a route of edge paths (train.ts). */
module Trains {
  import opened Types
  import EdgeNames

  /** The part of a train that its route methods read and change: the route, its cached length, the
      index of the path being ridden, the tick counter along that path, and the destination. */
  datatype RouteState = RouteState(route: seq<Path>, routeLength: nat, index: nat, position: nat, endVertex: Vertex)
  {
    /** The cached length agrees with the route. */
    ghost predicate Valid()
    {
      routeLength == |route|
    }

    /** `isEndOfRoute`: every path of the route has been completed. */
    predicate IsEndOfRoute()
    {
      index == routeLength
    }

    /** `isPenultimateRoute`: the train is on the last path of its route. */
    predicate IsPenultimateRoute()
    {
      index + 1 == routeLength
    }

    /** `route[i]`, which is `undefined` outside the route. */
    function PathAt(i: int): (p: Option<Path>)
      ensures p.Some? <==> 0 <= i < |route|
      ensures p.Some? ==> p.value == route[i]
    {
      if 0 <= i < |route| then Some(route[i]) else None
    }

    /** `currentPath`: the path being ridden. */
    function CurrentPath(): Option<Path>
    {
      PathAt(index)
    }

    /** `prevPath`: the path ridden before the current one. */
    function PrevPath(): Option<Path>
    {
      PathAt(index - 1)
    }

    /** `lastPath`: the final path of the route. */
    function LastPath(): Option<Path>
    {
      PathAt(routeLength - 1)
    }

    /** `prevVisitedStation`: the station the current path starts from; `None` where the source would
        throw because there is no current path. */
    function PrevVisitedStation(): Option<string>
    {
      match CurrentPath()
      case None => None
      case Some(p) => Some(EdgeNames.FirstPiece(p.name))
    }

    /** `currVisitedStation`: the station the current path leads to. */
    function CurrVisitedStation(): Option<string>
    {
      match CurrentPath()
      case None => None
      case Some(p) => Some(EdgeNames.LastPiece(p.name))
    }

    /** `nextStation`: move on to the next path and restart the tick counter, except at the end of the
        route, where the counter keeps its value until a new route is installed. */
    function NextStation(): (r: RouteState)
      ensures r.route == route && r.routeLength == routeLength && r.endVertex == endVertex
      ensures r.index == index + 1
      ensures r.PrevPath() == CurrentPath()
      ensures r.IsEndOfRoute() <==> IsPenultimateRoute()
      ensures r.IsEndOfRoute() ==> r.position == position
      ensures !r.IsEndOfRoute() ==> r.position == 0
    {
      var advanced := this.(index := index + 1, position := 0);
      if advanced.IsEndOfRoute() then advanced.(position := position) else advanced
    }

    /** The counter step of `moveForward`: one more tick along the current path. */
    function MoveForward(): (r: RouteState)
      ensures r.position == position + 1
      ensures r.(position := position) == this
    {
      this.(position := position + 1)
    }

    /** `stationStop`'s dwell: 2000 at the end of the route, 300 between paths. */
    function StopTime(): (t: nat)
      ensures IsEndOfRoute() ==> t == 2000
      ensures !IsEndOfRoute() ==> t == 300
    {
      if IsEndOfRoute() then 2000 else 300
    }
  }

  /** `init`: a route installed from its start, with its length cached. */
  function Fresh(route: seq<Path>, endVertex: Vertex): (s: RouteState)
    ensures s.Valid() && s.route == route && s.endVertex == endVertex
    ensures s.index == 0 && s.position == 0
    ensures s.IsEndOfRoute() <==> route == []
  {
    RouteState(route, |route|, 0, 0, endVertex)
  }

  /** On the edge drawn from station `a` to station `b`, the train has just visited `a` and is heading
      for `b`, provided neither station name contains a dash; with no current path neither is known. */
  lemma VisitedStations(s: RouteState, a: string, b: string)
    requires '-' !in a && '-' !in b
    ensures s.CurrentPath() == Some(Path(EdgeNames.EdgeName(a, b))) ==>
      s.PrevVisitedStation() == Some(a) && s.CurrVisitedStation() == Some(b)
    ensures s.CurrentPath().None? <==> s.PrevVisitedStation().None? && s.CurrVisitedStation().None?
  {
    EdgeNames.EdgeNameEndpoints(a, b);
  }

  /** The two calls that move a train along its route. */
  datatype Step = MoveForward | NextStation

  /** The route state after a sequence of calls. */
  function Run(s: RouteState, steps: seq<Step>): RouteState
    decreases |steps|
  {
    if steps == [] then s
    else
      var last := steps[|steps| - 1];
      var before := Run(s, steps[..|steps| - 1]);
      if last == NextStation then before.NextStation() else before.MoveForward()
  }

  /** How many `nextStation` calls a sequence holds. */
  function StationCalls(steps: seq<Step>): nat
    decreases |steps|
  {
    if steps == [] then 0
    else StationCalls(steps[..|steps| - 1]) + (if steps[|steps| - 1] == NextStation then 1 else 0)
  }

  /** Riding a fresh route: after k `nextStation` calls (with any ticks between them), the train is on
      path k and has just left path k-1; the end of the route is reached exactly at k == |route|; the
      route and its last path never change. */
  lemma {:induction false} RideAlongRoute(route: seq<Path>, endVertex: Vertex, steps: seq<Step>)
    requires StationCalls(steps) <= |route|
    ensures var s := Run(Fresh(route, endVertex), steps);
      && s.route == route && s.Valid() && s.endVertex == endVertex
      && s.index == StationCalls(steps)
      && (s.index < |route| ==> s.CurrentPath() == Some(route[s.index]))
      && (s.index >= 1 ==> s.PrevPath() == Some(route[s.index - 1]))
      && (s.IsEndOfRoute() <==> s.index == |route|)
      && s.LastPath() == (if route == [] then None else Some(route[|route| - 1]))
    decreases |steps|
  {
    if steps != [] {
      var init := steps[..|steps| - 1];
      assert StationCalls(init) <= StationCalls(steps);
      RideAlongRoute(route, endVertex, init);
    }
  }

  /** A train (train.ts `Train`). Its drawing shape is not modelled. */
  class Train {
    var velocity: real
    var maxSpeed: real
    var speedModifier: real
    var isInfected: bool

    var currentPosition: nat
    var routeLength: nat
    var route: seq<Path>
    var currentRouteIndex: nat
    var endVertex: Vertex

    var name: string
    var trainType: string

    /** The route state held in the fields. */
    function State(): RouteState
      reads this
    {
      RouteState(route, routeLength, currentRouteIndex, currentPosition, endVertex)
    }

    ghost predicate Valid()
      reads this
    {
      State().Valid()
    }

    constructor (name: string, trainType: string, route: seq<Path>, endVertex: Vertex, maxSpeed: real, speedModifier: real)
      ensures Valid() && State() == Fresh(route, endVertex)
      ensures !isInfected && velocity == maxSpeed && this.maxSpeed == maxSpeed && this.speedModifier == speedModifier
      ensures this.name == name && this.trainType == trainType
    {
      this.isInfected := false;
      this.name := name;
      this.trainType := trainType;
      this.maxSpeed := maxSpeed;
      this.velocity := maxSpeed;
      this.speedModifier := speedModifier;
      new;
      Init(route, endVertex);
    }

    /** `Freight`: a train of type "freight" with a top speed of 0.2. Its colour and starting
        coordinates only shape the drawing. */
    constructor Freight(name: string, route: seq<Path>, endVertex: Vertex, speedModifier: real)
      ensures Valid() && State() == Fresh(route, endVertex)
      ensures !isInfected && maxSpeed == 0.2 && velocity == 0.2 && this.speedModifier == speedModifier
      ensures this.name == name && trainType == "freight"
    {
      this.isInfected := false;
      this.name := name;
      this.trainType := "freight";
      this.maxSpeed := 0.2;
      this.velocity := 0.2;
      this.speedModifier := speedModifier;
      new;
      Init(route, endVertex);
    }

    /** `init`: install a route from its start. */
    method Init(route: seq<Path>, endVertex: Vertex)
      modifies this`route, this`endVertex, this`routeLength, this`currentRouteIndex, this`currentPosition
      ensures Valid() && State() == Fresh(route, endVertex)
    {
      this.route := route;
      this.endVertex := endVertex;
      this.routeLength := |route|;
      this.currentRouteIndex := 0;
      this.currentPosition := 0;
    }

    /** `actualVelocity`. */
    function ActualVelocity(): real
      reads this
    {
      velocity * speedModifier
    }

    /** `isMoving`. */
    predicate IsMoving()
      reads this
    {
      velocity > 0.0
    }

    method Halt()
      modifies this`velocity
      ensures velocity == 0.0 && !IsMoving() && ActualVelocity() == 0.0
    {
      velocity := 0.0;
    }

    method Resume()
      modifies this`velocity
      ensures velocity == maxSpeed
      ensures ActualVelocity() == maxSpeed * speedModifier
    {
      velocity := maxSpeed;
    }

    method Infect()
      modifies this`isInfected
      ensures isInfected
    {
      isInfected := true;
    }

    method Disinfect()
      modifies this`isInfected
      ensures !isInfected
    {
      isInfected := false;
    }

    /** `moveForward`: one tick along the current path. Without a current path the source throws when
        it asks that path for a point, before the counter moves; `moved` is false then. */
    method MoveForward() returns (moved: bool)
      modifies this`currentPosition
      ensures moved <==> old(State()).CurrentPath().Some?
      ensures State() == if moved then old(State()).MoveForward() else old(State())
    {
      moved := State().CurrentPath().Some?;
      if moved {
        currentPosition := currentPosition + 1;
      }
    }

    /** `updateRoute`: replace the route wholesale. */
    method UpdateRoute(route: seq<Path>, endVertex: Vertex)
      modifies this`route, this`endVertex, this`routeLength, this`currentRouteIndex, this`currentPosition
      ensures Valid() && State() == Fresh(route, endVertex)
    {
      Init(route, endVertex);
    }

    /** `nextStation`. */
    method NextStation()
      modifies this`currentRouteIndex, this`currentPosition
      ensures State() == old(State()).NextStation()
    {
      var prevPos := currentPosition;
      currentPosition := 0;
      currentRouteIndex := currentRouteIndex + 1;
      if State().IsEndOfRoute() {
        currentPosition := prevPos;
      }
    }

    /** `stationStop`: halt and choose how long to dwell; the timer that resumes the train is not
        modelled. */
    method StationStop() returns (stopTime: nat)
      modifies this`velocity
      ensures velocity == 0.0 && !IsMoving()
      ensures stopTime == State().StopTime()
      ensures State().IsEndOfRoute() ==> stopTime == 2000
      ensures !State().IsEndOfRoute() ==> stopTime == 300
    {
      Halt();
      stopTime := 300;
      if State().IsEndOfRoute() {
        stopTime := 2000;
      }
    }
  }
}
