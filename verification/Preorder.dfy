/** The order in which mutation.Collect emits the points of a file, in terms of where the nodes
    sit in their parents. */
module Preorder {
  import opened AstNode
  import opened DeepCopy
  import opened Collect

  // Where a child sits: the walk's step at which its field is visited, and the slot there.
  datatype Place = Place(step: nat, item: nat)

  // The places passed on the way down from a node.
  type Route = seq<Place>

  predicate PlaceBefore(a: Place, b: Place)
  {
    a.step < b.step || (a.step == b.step && a.item < b.item)
  }

  // a is a proper prefix of b, or comes earlier at the first place where they part.
  ghost predicate Before(a: Route, b: Route)
  {
    exists i: nat :: PartAt(a, b, i)
  }

  predicate PartAt(a: Route, b: Route, i: nat)
  {
    i <= |a| && i < |b| && a[..i] == b[..i] && (i == |a| || PlaceBefore(a[i], b[i]))
  }

  lemma BeforeCons(p: Place, a: Route, b: Route)
    requires Before(a, b)
    ensures Before([p] + a, [p] + b)
  {
    var i: nat :| PartAt(a, b, i);
    assert ([p] + a)[..i + 1] == [p] + a[..i] && ([p] + b)[..i + 1] == [p] + b[..i];
    assert PartAt([p] + a, [p] + b, i + 1);
  }

  predicate HasChild(n: Node, p: Place)
    reads n
  {
    && p.step < |n.typ.walk| && n.typ.walk[p.step] < |n.fields|
    && p.item < |n.fields[n.typ.walk[p.step]]| && n.fields[n.typ.walk[p.step]][p.item] != null
  }

  function ChildAt(n: Node, p: Place): Node
    requires HasChild(n, p)
    reads n
  {
    n.fields[n.typ.walk[p.step]][p.item]
  }

  ghost predicate IsRoute(graph: set<Node>, n: Node, route: Route)
    requires Closed(graph)
    reads graph
    decreases |route|
  {
    n in graph && (route != [] ==> HasChild(n, route[0]) && IsRoute(graph, ChildAt(n, route[0]), route[1..]))
  }

  ghost function NodesAlong(graph: set<Node>, n: Node, route: Route): (r: seq<Node>)
    requires Closed(graph) && IsRoute(graph, n, route)
    ensures |r| == |route| + 1
    reads graph
    decreases |route|
  {
    [n] + if route == [] then [] else NodesAlong(graph, ChildAt(n, route[0]), route[1..])
  }

  // "enclosing" is the last function declaration on the path, or null if there is none.
  ghost predicate Innermost(path: seq<Node>, enclosing: Node?)
  {
    if enclosing == null then forall m :: m in path ==> m.typ.name != FUNC_DECL
    else exists j :: 0 <= j < |path| && LastDeclaration(path, j, enclosing)
  }

  ghost predicate LastDeclaration(path: seq<Node>, j: nat, f: Node)
    requires j < |path|
  {
    path[j] == f && f.typ.name == FUNC_DECL && forall l :: j < l < |path| ==> path[l].typ.name != FUNC_DECL
  }

  // The point is the target node at the end of the route, with the nodes passed as its path.
  ghost predicate PointAt(graph: set<Node>, targets: set<string>, n: Node, above: seq<Node>, pt: Point, route: Route)
    requires Closed(graph)
    reads graph
  {
    && IsRoute(graph, n, route)
    && pt.path == above + NodesAlong(graph, n, route)
    && pt.node == NodesAlong(graph, n, route)[|route|]
    && pt.node.typ.name in targets
    && Innermost(pt.path, pt.enclosing)
  }

  ghost predicate TargetAt(graph: set<Node>, targets: set<string>, n: Node, route: Route)
    requires Closed(graph)
    reads graph
  {
    IsRoute(graph, n, route) && NodesAlong(graph, n, route)[|route|].typ.name in targets
  }

  ghost predicate Ordered(routes: seq<Route>)
  {
    forall k, l :: 0 <= k < l < |routes| ==> Before(routes[k], routes[l])
  }

  /** The points are those at the ends of exactly the routes to a target, in preorder. */
  ghost predicate InPreorder(graph: set<Node>, targets: set<string>, n: Node, above: seq<Node>, points: seq<Point>, routes: seq<Route>)
    requires Closed(graph)
    reads graph
  {
    && |points| == |routes|
    && (forall k :: 0 <= k < |points| ==> PointAt(graph, targets, n, above, points[k], routes[k]))
    && Ordered(routes)
    && forall route :: TargetAt(graph, targets, n, route) ==> route in routes
  }

  /** So no route occurs twice. */
  lemma OccursOnce(routes: seq<Route>, k: nat, l: nat)
    requires Ordered(routes) && k < |routes| && l < |routes| && routes[k] == routes[l]
    ensures k == l
  {
    NotBeforeItself(routes[k]);
  }

  lemma NotBeforeItself(route: Route)
    ensures !Before(route, route)
  {
  }

  // ---- the children of a node, with their places

  function RowPlaces(step: nat, items: seq<Node?>): seq<Place>
  {
    if items == [] then []
    else RowPlaces(step, items[..|items| - 1]) + if items[|items| - 1] == null then [] else [Place(step, |items| - 1)]
  }

  function Places(fields: Fields, walk: seq<nat>): seq<Place>
    requires forall k :: 0 <= k < |walk| ==> walk[k] < |fields|
  {
    if walk == [] then []
    else Places(fields, walk[..|walk| - 1]) + RowPlaces(|walk| - 1, fields[walk[|walk| - 1]])
  }

  // The place holds the child, in a field that is visited at one of the steps.
  predicate Holds(fields: Fields, walk: seq<nat>, p: Place, c: Node)
  {
    && p.step < |walk| && walk[p.step] < |fields| && p.item < |fields[walk[p.step]]|
    && fields[walk[p.step]][p.item] == c
  }

  lemma {:induction false} RowPlaceHolds(step: nat, items: seq<Node?>)
    ensures |RowPlaces(step, items)| == |NonNull(items)|
    ensures forall k :: 0 <= k < |RowPlaces(step, items)| ==>
      var p := RowPlaces(step, items)[k]; p.step == step && p.item < |items| && items[p.item] == NonNull(items)[k]
    ensures forall k, l :: 0 <= k < l < |RowPlaces(step, items)| ==> RowPlaces(step, items)[k].item < RowPlaces(step, items)[l].item
    ensures forall j: nat :: j < |items| && items[j] != null ==> Place(step, j) in RowPlaces(step, items)
  {
    if items != [] {
      RowPlaceHolds(step, items[..|items| - 1]);
    }
  }

  lemma {:induction false} PlacesLength(fields: Fields, walk: seq<nat>)
    requires forall k :: 0 <= k < |walk| ==> walk[k] < |fields|
    ensures |Places(fields, walk)| == |WalkSeq(fields, walk)|
  {
    if walk != [] {
      PlacesLength(fields, walk[..|walk| - 1]);
      RowPlaceHolds(|walk| - 1, fields[walk[|walk| - 1]]);
    }
  }

  /** The walk visits a child at each of these places ... */
  lemma {:induction false} PlaceHolds(fields: Fields, walk: seq<nat>, k: nat)
    requires forall k :: 0 <= k < |walk| ==> walk[k] < |fields|
    requires k < |Places(fields, walk)|
    ensures k < |WalkSeq(fields, walk)| && Holds(fields, walk, Places(fields, walk)[k], WalkSeq(fields, walk)[k])
  {
    hide RowPlaces, NonNull;
    var m := |walk| - 1;
    PlacesLength(fields, walk);
    PlacesLength(fields, walk[..m]);
    RowPlaceHolds(m, fields[walk[m]]);
    if k < |Places(fields, walk[..m])| {
      PlaceHolds(fields, walk[..m], k);
    }
  }

  /** ... field by field in the order of the walk, and slot by slot ... */
  lemma {:induction false} PlacesIncrease(fields: Fields, walk: seq<nat>, k: nat, l: nat)
    requires forall k :: 0 <= k < |walk| ==> walk[k] < |fields|
    requires k < l < |Places(fields, walk)|
    ensures PlaceBefore(Places(fields, walk)[k], Places(fields, walk)[l])
  {
    hide RowPlaces, NonNull;
    var m := |walk| - 1;
    RowPlaceHolds(m, fields[walk[m]]);
    if l < |Places(fields, walk[..m])| {
      PlacesIncrease(fields, walk[..m], k, l);
    } else if k < |Places(fields, walk[..m])| {
      PlaceHolds(fields, walk[..m], k);
    }
  }

  /** ... and at no place more. */
  lemma {:induction false} PlaceListed(fields: Fields, walk: seq<nat>, p: Place, c: Node)
    requires forall k :: 0 <= k < |walk| ==> walk[k] < |fields|
    requires Holds(fields, walk, p, c)
    ensures p in Places(fields, walk)
  {
    hide RowPlaces, NonNull;
    var m := |walk| - 1;
    if p.step < m {
      PlaceListed(fields, walk[..m], p, c);
    } else {
      RowPlaceHolds(m, fields[walk[m]]);
    }
  }

  // ---- the points of a node and of its children from position k on

  ghost function KidPlaces(graph: set<Node>, n: Node): seq<Place>
    requires Closed(graph) && n in graph
    reads graph
  {
    Places(n.fields, n.typ.walk)
  }

  lemma KidPlace(graph: set<Node>, n: Node, k: nat)
    requires Closed(graph) && n in graph && k < |ChildrenIn(graph, n)|
    ensures |KidPlaces(graph, n)| == |ChildrenIn(graph, n)|
    ensures HasChild(n, KidPlaces(graph, n)[k]) && ChildAt(n, KidPlaces(graph, n)[k]) == ChildrenIn(graph, n)[k]
    ensures forall l :: k < l < |ChildrenIn(graph, n)| ==> PlaceBefore(KidPlaces(graph, n)[k], KidPlaces(graph, n)[l])
  {
    hide WalkSeq, Places;
    PlacesLength(n.fields, n.typ.walk);
    PlaceHolds(n.fields, n.typ.walk, k);
    forall l | k < l < |ChildrenIn(graph, n)|
      ensures PlaceBefore(KidPlaces(graph, n)[k], KidPlaces(graph, n)[l])
    {
      PlacesIncrease(n.fields, n.typ.walk, k, l);
    }
  }

  lemma KidPlaceListed(graph: set<Node>, n: Node, p: Place)
    requires Closed(graph) && n in graph && HasChild(n, p)
    ensures p in KidPlaces(graph, n)
  {
    PlaceListed(n.fields, n.typ.walk, p, ChildAt(n, p));
  }

  // The route starts at one of the places from position k on.
  ghost predicate StartsFrom(places: seq<Place>, k: nat, route: Route)
  {
    route != [] && exists j :: k <= j < |places| && places[j] == route[0]
  }

  ghost predicate KidsInPreorder(graph: set<Node>, targets: set<string>, n: Node, k: nat, above: seq<Node>, points: seq<Point>, routes: seq<Route>)
    requires Closed(graph) && n in graph
    reads graph
  {
    && |points| == |routes|
    && (forall i :: 0 <= i < |points| ==> PointAt(graph, targets, n, above, points[i], routes[i]) && StartsFrom(KidPlaces(graph, n), k, routes[i]))
    && Ordered(routes)
    && forall route :: TargetAt(graph, targets, n, route) && StartsFrom(KidPlaces(graph, n), k, route) ==> route in routes
  }

  function Prefixed(p: Place, routes: seq<Route>): (r: seq<Route>)
    ensures |r| == |routes| && forall i :: 0 <= i < |r| ==> r[i] == [p] + routes[i]
  {
    seq(|routes|, i requires 0 <= i < |routes| => [p] + routes[i])
  }

  lemma {:induction false} RouteDown(graph: set<Node>, n: Node, p: Place, route: Route)
    requires Closed(graph) && n in graph && HasChild(n, p) && IsRoute(graph, ChildAt(n, p), route)
    ensures IsRoute(graph, n, [p] + route)
    ensures NodesAlong(graph, n, [p] + route) == [n] + NodesAlong(graph, ChildAt(n, p), route)
  {
    assert ([p] + route)[1..] == route;
  }

  lemma PointDown(graph: set<Node>, targets: set<string>, n: Node, p: Place, above: seq<Node>, pt: Point, route: Route)
    requires Closed(graph) && n in graph && HasChild(n, p) && PointAt(graph, targets, ChildAt(n, p), above + [n], pt, route)
    ensures PointAt(graph, targets, n, above, pt, [p] + route)
  {
    hide Closed, IsRoute, NodesAlong, HasChild, Innermost;
    RouteDown(graph, n, p, route);
    var below := NodesAlong(graph, ChildAt(n, p), route);
    assert above + [n] + below == above + ([n] + below);
  }

  // The points of child k, seen from its parent, come before those of the later children.
  lemma JoinKids(graph: set<Node>, targets: set<string>, n: Node, k: nat, above: seq<Node>,
                 points: seq<Point>, routes: seq<Route>, later: seq<Point>, laterRoutes: seq<Route>)
    requires Closed(graph) && n in graph && k < |ChildrenIn(graph, n)|
    requires InPreorder(graph, targets, ChildrenIn(graph, n)[k], above + [n], points, routes)
    requires KidsInPreorder(graph, targets, n, k + 1, above, later, laterRoutes)
    requires k < |KidPlaces(graph, n)|
    ensures KidsInPreorder(graph, targets, n, k, above, points + later, Prefixed(KidPlaces(graph, n)[k], routes) + laterRoutes)
  {
    hide Closed, Children, FieldsFit, IsRoute, NodesAlong, PointAt, TargetAt, KidPlaces, Before, HasChild, ChildAt;
    KidPlace(graph, n, k);
    var p := KidPlaces(graph, n)[k];
    var downRoutes := Prefixed(p, routes);
    forall i | 0 <= i < |points|
      ensures PointAt(graph, targets, n, above, points[i], downRoutes[i]) && StartsFrom(KidPlaces(graph, n), k, downRoutes[i])
    {
      PointDown(graph, targets, n, p, above, points[i], routes[i]);
    }
    JoinOrder(KidPlaces(graph, n), k, routes, laterRoutes);
    forall route | TargetAt(graph, targets, n, route) && StartsFrom(KidPlaces(graph, n), k, route)
      ensures route in downRoutes + laterRoutes
    {
      if route[0] == p {
        TargetUp(graph, targets, n, p, route);
        var i :| 0 <= i < |routes| && routes[i] == route[1..];
        assert downRoutes[i] == route;
      }
    }
  }

  lemma {:induction false} TargetUp(graph: set<Node>, targets: set<string>, n: Node, p: Place, route: Route)
    requires Closed(graph) && n in graph && TargetAt(graph, targets, n, route) && route != [] && route[0] == p
    ensures HasChild(n, p) && TargetAt(graph, targets, ChildAt(n, p), route[1..]) && route == [p] + route[1..]
  {
  }

  lemma JoinOrder(places: seq<Place>, k: nat, routes: seq<Route>, later: seq<Route>)
    requires k < |places| && Ordered(routes) && Ordered(later)
    requires forall l :: k < l < |places| ==> PlaceBefore(places[k], places[l])
    requires forall i :: 0 <= i < |later| ==> StartsFrom(places, k + 1, later[i])
    ensures Ordered(Prefixed(places[k], routes) + later)
  {
    hide Before;
    var down := Prefixed(places[k], routes);
    forall i, j | 0 <= i < j < |down| + |later|
      ensures Before((down + later)[i], (down + later)[j])
    {
      if j < |down| {
        BeforeCons(places[k], routes[i], routes[j]);
      } else if i < |down| {
        PartsAtOnce(places[k], routes[i], later[j - |down|]);
      }
    }
  }

  lemma PartsAtOnce(p: Place, a: Route, b: Route)
    requires b != [] && PlaceBefore(p, b[0])
    ensures Before([p] + a, b)
  {
    assert PartAt([p] + a, b, 0);
  }

  lemma {:induction false} FuncsInnermost(path: seq<Node>)
    ensures Innermost(path, Top(Funcs(path)))
  {
    NoDeclaration();
    if path != [] {
      hide Innermost;
      var m := |path| - 1;
      FuncsInnermost(path[..m]);
      InnermostMore(path[..m], Top(Funcs(path[..m])), path[m]);
      assert path == path[..m] + [path[m]];
    }
  }

  lemma NoDeclaration()
    ensures Innermost([], null)
  {
  }

  lemma InnermostMore(path: seq<Node>, enclosing: Node?, n: Node)
    requires Innermost(path, enclosing)
    ensures Innermost(path + [n], if n.typ.name == FUNC_DECL then n else enclosing)
  {
    if n.typ.name == FUNC_DECL {
      assert LastDeclaration(path + [n], |path|, n);
    } else if enclosing != null {
      var j :| 0 <= j < |path| && LastDeclaration(path, j, enclosing);
      assert LastDeclaration(path + [n], j, enclosing);
    }
  }

  // The node itself comes before everything below it.
  lemma {:induction false} AddRoot(graph: set<Node>, targets: set<string>, n: Node, above: seq<Node>, points: seq<Point>, routes: seq<Route>)
    requires Closed(graph) && n in graph && KidsInPreorder(graph, targets, n, 0, above, points, routes)
    ensures n.typ.name in targets ==>
      InPreorder(graph, targets, n, above, [Point(n, above + [n], Top(Funcs(above + [n])))] + points, [[]] + routes)
    ensures n.typ.name !in targets ==> InPreorder(graph, targets, n, above, points, routes)
  {
    hide Closed, Children, FieldsFit, IsRoute, NodesAlong, KidPlaces, Before, HasChild, ChildAt, Funcs, Innermost;
    EmptyRoute(graph, n);
    FuncsInnermost(above + [n]);
    forall route | TargetAt(graph, targets, n, route) && route != []
      ensures route in routes
    {
      FirstPlace(graph, n, route);
    }
    RootFirst(routes);
  }

  lemma {:induction false} EmptyRoute(graph: set<Node>, n: Node)
    requires Closed(graph) && n in graph
    ensures IsRoute(graph, n, []) && NodesAlong(graph, n, []) == [n]
  {
  }

  lemma {:induction false} FirstPlace(graph: set<Node>, n: Node, route: Route)
    requires Closed(graph) && n in graph && IsRoute(graph, n, route) && route != []
    ensures StartsFrom(KidPlaces(graph, n), 0, route)
  {
    KidPlaceListed(graph, n, route[0]);
  }

  lemma RootFirst(routes: seq<Route>)
    requires Ordered(routes) && forall i :: 0 <= i < |routes| ==> routes[i] != []
    ensures Ordered([[]] + routes)
  {
    var all := [[]] + routes;
    forall i, j | 0 <= i < j < |all|
      ensures Before(all[i], all[j])
    {
      if i == 0 {
        assert PartAt(all[0], all[j], 0);
      }
    }
  }

  /** Every point of the specification sits at the end of a route, routes to all targets occur,
      and they are in preorder. */
  lemma {:induction false} PointsInPreorder(graph: set<Node>, rank: map<Node, nat>, targets: set<string>, n: Node, above: seq<Node>)
    returns (routes: seq<Route>)
    requires Closed(graph) && Acyclic(graph, rank) && n in graph
    ensures InPreorder(graph, targets, n, above, PointsOf(graph, rank, targets, n, above), routes)
    decreases rank[n], |Children(n)| + 1
  {
    hide Closed, Children, FieldsFit, Acyclic, PointsOf, PointsOfAll, KidsInPreorder, InPreorder;
    var below := KidPoints(graph, rank, targets, n, 0, above);
    AddRoot(graph, targets, n, above, PointsOfAll(graph, rank, targets, n, 0, above + [n]), below);
    PointsOfHead(graph, rank, targets, n, above);
    routes := if n.typ.name in targets then [[]] + below else below;
    assert [] + PointsOfAll(graph, rank, targets, n, 0, above + [n]) == PointsOfAll(graph, rank, targets, n, 0, above + [n]);
  }

  lemma {:induction false} KidPoints(graph: set<Node>, rank: map<Node, nat>, targets: set<string>, n: Node, k: nat, above: seq<Node>)
    returns (routes: seq<Route>)
    requires Closed(graph) && Acyclic(graph, rank) && n in graph && k <= |Children(n)|
    ensures KidsInPreorder(graph, targets, n, k, above, PointsOfAll(graph, rank, targets, n, k, above + [n]), routes)
    decreases rank[n], |Children(n)| - k
  {
    hide Closed, Children, FieldsFit, Acyclic, PointsOf, KidsInPreorder, InPreorder;
    if k == |ChildrenIn(graph, n)| {
      routes := [];
      NoKids(graph, targets, n, above);
    } else {
      var kid := ChildrenIn(graph, n)[k];
      ChildInGraph(graph, rank, n, kid);
      KidPlace(graph, n, k);
      var first := PointsInPreorder(graph, rank, targets, kid, above + [n]);
      var later := KidPoints(graph, rank, targets, n, k + 1, above);
      JoinKids(graph, targets, n, k, above, PointsOf(graph, rank, targets, kid, above + [n]), first,
               PointsOfAll(graph, rank, targets, n, k + 1, above + [n]), later);
      routes := Prefixed(KidPlaces(graph, n)[k], first) + later;
    }
  }

  lemma NoKids(graph: set<Node>, targets: set<string>, n: Node, above: seq<Node>)
    requires Closed(graph) && n in graph
    ensures KidsInPreorder(graph, targets, n, |ChildrenIn(graph, n)|, above, [], [])
  {
    PlacesLength(n.fields, n.typ.walk);
  }

  /** mutation.Collect on one file: the points are those at the ends of exactly the routes from
      the file to a node of a target type, in preorder. */
  method CollectFile(file: Node, targets: set<string>, ghost graph: set<Node>, ghost rank: map<Node, nat>)
    returns (points: seq<Point>)
    requires Closed(graph) && Acyclic(graph, rank) && file in graph
    ensures exists routes :: InPreorder(graph, targets, file, [], points, routes)
  {
    hide Closed, Acyclic, InPreorder, PointsOf;
    var collector := new Collector(targets);
    assert collector.funcStack == Funcs(collector.pathStack);
    collector.Inspect(file, graph, rank);
    points := collector.points;
    assert points == PointsOf(graph, rank, targets, file, []);
    ghost var routes := PointsInPreorder(graph, rank, targets, file, []);
  }
}
