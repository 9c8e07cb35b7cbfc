/** The node layout pass, Node::arrangePlugs (zodiacgraph/node.cpp:542-673).

    A node's perimeter is split into an even number of zones, half above and half
    below the label's dead zone. Each connected plug gets a cost row holding, per
    zone, the square of its angular distance to the zone times its arrangement
    priority; the solver of module PlugArranger picks one zone per connected plug;
    that choice is merged into the identity placement by swaps; and with an odd
    number of plugs the one zone left empty is collapsed by re-laying the other
    zones of its half.

    Angles are exact reals and pi is an abstract positive constant. A plug enters
    as its edge count, its target angle (the atan2 of its target normal) and its
    arrangement priority; the result is the angle each plug is placed at, in the
    order of the node's plug map. */
module NodeLayout {
  import opened PlugArranger

  type PosReal = r: real | r > 0.0 witness 1.0

  /** M_PI. Nothing below depends on its value beyond it being positive. */
  const Pi: PosReal

  // ---------------------------------------------------------------------------
  // Angular distance (node.cpp:805-815)
  // ---------------------------------------------------------------------------

  function Abs(x: real): (a: real)
    ensures 0.0 <= a && (a == x || a == -x)
  {
    if x < 0.0 then -x else x
  }

  /** The distance between two angles, going round the shorter way. */
  function AngularDistance(alpha: real, beta: real): (d: real)
    ensures d <= Pi
    ensures alpha == beta ==> d == 0.0
  {
    var result := Abs(alpha - beta);
    if result > Pi then 2.0 * Pi - result else result
  }

  lemma AngularDistanceSymmetric(alpha: real, beta: real)
    ensures AngularDistance(alpha, beta) == AngularDistance(beta, alpha)
  {
  }

  /** For angles at most a full turn apart the distance lies in [0, pi] and is the
      shorter of the two arcs between them. */
  lemma AngularDistanceIsShorterArc(alpha: real, beta: real)
    requires Abs(alpha - beta) <= 2.0 * Pi
    ensures 0.0 <= AngularDistance(alpha, beta) <= Pi
    ensures AngularDistance(alpha, beta) <= Abs(alpha - beta)
    ensures AngularDistance(alpha, beta) <= 2.0 * Pi - Abs(alpha - beta)
    ensures AngularDistance(alpha, beta) == Abs(alpha - beta) ||
            AngularDistance(alpha, beta) == 2.0 * Pi - Abs(alpha - beta)
  {
  }

  // ---------------------------------------------------------------------------
  // Zones (node.cpp:545-576)
  // ---------------------------------------------------------------------------

  /** As many zones above the label as below it: the plug count rounded up to
      even (node.cpp:551). */
  function EvenZoneCount(plugCount: nat): (e: nat)
    ensures e % 2 == 0 && plugCount <= e <= plugCount + 1
    ensures e == plugCount <==> plugCount % 2 == 0
  {
    plugCount + plugCount % 2
  }

  function HalfZoneCount(plugCount: nat): (h: nat)
    ensures 2 * h == EvenZoneCount(plugCount)
    ensures plugCount > 0 ==> h > 0
  {
    EvenZoneCount(plugCount) / 2
  }

  /** The width of each of `zones` zones sharing one half of the perimeter with
      `zones + 1` gaps and the two halves of the dead zone (node.cpp:563, 650). */
  function ZoneSpan(halfDead: real, gap: real, zones: nat): real
    requires zones > 0
  {
    (Pi - 2.0 * halfDead - ((zones + 1) as real) * gap) / (zones as real)
  }

  /** The centre of zone `k` of a half starting at angle `offset`. */
  function ZoneCentre(offset: real, halfDead: real, gap: real, span: real, k: nat): real
  {
    offset + halfDead + gap + span / 2.0 + (k as real) * (gap + span)
  }

  lemma ZoneCentreStep(offset: real, halfDead: real, gap: real, span: real, k: nat)
    ensures ZoneCentre(offset, halfDead, gap, span, k + 1) == ZoneCentre(offset, halfDead, gap, span, k) + (gap + span)
  {
    var step := gap + span;
    var kr := k as real;
    assert (k + 1) as real == kr + 1.0;
    assert (kr + 1.0) * step == kr * step + 1.0 * step;
  }

  /** The zones of a half, with a gap before each and one after the last, fill it
      exactly: the last zone ends a gap and half a dead zone short of
      `offset + pi`. */
  lemma ZonesFillHalf(offset: real, halfDead: real, gap: real, zones: nat)
    requires zones > 0
    ensures ZoneCentre(offset, halfDead, gap, ZoneSpan(halfDead, gap, zones), zones - 1)
              + ZoneSpan(halfDead, gap, zones) / 2.0 + gap + halfDead == offset + Pi
  {
    var span := ZoneSpan(halfDead, gap, zones);
    var z := zones as real;
    assert span * z == Pi - 2.0 * halfDead - (z + 1.0) * gap;
    assert ((zones - 1) as real) * (gap + span) == z * gap + z * span - gap - span;
  }

  /** The zone directions before any collapse (node.cpp:560-576): zones
      `0 .. h-1` above the label from angle 0, zones `h .. 2h-1` below it from
      angle -pi. */
  function InitialZones(plugCount: nat, halfDead: real, gap: real): (z: seq<real>)
    requires plugCount > 0
    ensures |z| == EvenZoneCount(plugCount)
  {
    var h := HalfZoneCount(plugCount);
    var span := ZoneSpan(halfDead, gap, h);
    seq(2 * h, i requires 0 <= i < 2 * h =>
      if i < h then ZoneCentre(0.0, halfDead, gap, span, i)
      else ZoneCentre(-(Pi as real), halfDead, gap, span, i - h))
  }

  /** The upper centres start at halfDead + gap + span/2 and rise by gap + span;
      each lower centre is the upper one with the same rank, turned by -pi. */
  lemma InitialZonesShape(plugCount: nat, halfDead: real, gap: real)
    requires plugCount > 0
    ensures var z := InitialZones(plugCount, halfDead, gap);
            var h := HalfZoneCount(plugCount);
            var span := ZoneSpan(halfDead, gap, h);
            z[0] == halfDead + gap + span / 2.0 &&
            (forall i :: 0 <= i < h - 1 ==> z[i + 1] == z[i] + (gap + span)) &&
            (forall i :: 0 <= i < h ==> z[h + i] == z[i] - Pi)
  {
    var z := InitialZones(plugCount, halfDead, gap);
    var h := HalfZoneCount(plugCount);
    var span := ZoneSpan(halfDead, gap, h);
    forall i | 0 <= i < h - 1 ensures z[i + 1] == z[i] + (gap + span) {
      ZoneCentreStep(0.0, halfDead, gap, span, i);
    }
    forall i | 0 <= i < h ensures z[h + i] == z[i] - Pi {
      assert z[h + i] == ZoneCentre(-(Pi as real), halfDead, gap, span, i);
    }
    assert z[0] == ZoneCentre(0.0, halfDead, gap, span, 0);
  }

  /** Filling zoneDirections (node.cpp:551-576). */
  method ZoneDirections(plugCount: nat, halfDead: real, gap: real) returns (zones: array<real>)
    requires plugCount > 0
    ensures fresh(zones) && zones[..] == InitialZones(plugCount, halfDead, gap)
  {
    var evenZoneCount := plugCount + (plugCount % 2);
    var halfZoneCount := evenZoneCount / 2;
    zones := new real[evenZoneCount];
    var zoneSpan := (Pi - (2.0 * halfDead) - ((halfZoneCount + 1) as real * gap)) / (halfZoneCount as real);
    ghost var z := InitialZones(plugCount, halfDead, gap);
    assert halfZoneCount == HalfZoneCount(plugCount);
    assert zoneSpan == ZoneSpan(halfDead, gap, halfZoneCount);

    var currentAngle := halfDead + gap + (zoneSpan / 2.0);
    for index := 0 to halfZoneCount
      invariant currentAngle == ZoneCentre(0.0, halfDead, gap, zoneSpan, index)
      invariant forall i :: 0 <= i < index ==> zones[i] == z[i]
    {
      assert z[index] == ZoneCentre(0.0, halfDead, gap, zoneSpan, index);
      zones[index] := currentAngle;
      ZoneCentreStep(0.0, halfDead, gap, zoneSpan, index);
      currentAngle := currentAngle + (gap + zoneSpan);
    }
    currentAngle := -(Pi as real) + halfDead + gap + (zoneSpan / 2.0);
    for index := halfZoneCount to evenZoneCount
      invariant currentAngle == ZoneCentre(-(Pi as real), halfDead, gap, zoneSpan, index - halfZoneCount)
      invariant forall i :: 0 <= i < index ==> zones[i] == z[i]
    {
      assert z[index] == ZoneCentre(-(Pi as real), halfDead, gap, zoneSpan, index - halfZoneCount);
      zones[index] := currentAngle;
      ZoneCentreStep(-(Pi as real), halfDead, gap, zoneSpan, index - halfZoneCount);
      currentAngle := currentAngle + (gap + zoneSpan);
    }
  }

  // ---------------------------------------------------------------------------
  // Connected plugs and the cost table (node.cpp:579-612)
  // ---------------------------------------------------------------------------

  /** What the layout needs of a plug: its edge count, the direction it points
      to (node.cpp:589-590) and its arrangement priority (plug.cpp:308-316). */
  datatype PlugInfo = PlugInfo(edgeCount: nat, target: real, priority: real)

  /** The positions, in plug order, of the plugs with at least one edge: the rows
      of the cost table (node.cpp:581-591). */
  function Connected(plugs: seq<PlugInfo>): (c: seq<nat>)
    ensures |c| <= |plugs|
    ensures forall i :: 0 <= i < |c| ==> c[i] < |plugs|
  {
    if |plugs| == 0 then []
    else
      Connected(plugs[..|plugs| - 1]) +
        (if plugs[|plugs| - 1].edgeCount > 0 then [|plugs| - 1] else [])
  }

  /** The rows are the connected plugs, each once, in plug order. */
  lemma {:induction false} ConnectedSpec(plugs: seq<PlugInfo>)
    ensures Increasing(Connected(plugs))
    ensures forall x: nat :: x in Connected(plugs) <==> x < |plugs| && plugs[x].edgeCount > 0
  {
    if |plugs| > 0 {
      var init := plugs[..|plugs| - 1];
      ConnectedSpec(init);
      forall x: nat ensures x < |init| && init[x].edgeCount > 0 <==> x < |init| && plugs[x].edgeCount > 0 {
      }
    }
  }

  lemma ConnectedMember(plugs: seq<PlugInfo>, row: nat)
    requires row < |Connected(plugs)|
    ensures plugs[Connected(plugs)[row]].edgeCount > 0
  {
    ConnectedSpec(plugs);
    assert Connected(plugs)[row] in Connected(plugs);
  }

  method ConnectedPlugs(plugs: seq<PlugInfo>) returns (plugDirections: seq<nat>)
    ensures plugDirections == Connected(plugs)
  {
    plugDirections := [];
    for index := 0 to |plugs|
      invariant plugDirections == Connected(plugs[..index])
    {
      assert plugs[..index + 1][..index] == plugs[..index];
      if plugs[index].edgeCount == 0 {
        continue;
      }
      plugDirections := plugDirections + [index];
    }
    assert plugs[..|plugs|] == plugs;
  }

  /** One cell of the cost table: (angular distance * priority) squared
      (node.cpp:609-610). */
  function CostEntry(p: PlugInfo, zone: real): (c: real)
    ensures 0.0 <= c
  {
    var cost := AngularDistance(p.target, zone) * p.priority;
    cost * cost
  }

  /** One plug's row of the cost table: its cost in every zone. */
  function CostRow(p: PlugInfo, zones: seq<real>): (r: seq<real>)
    ensures |r| == |zones| && forall col :: 0 <= col < |zones| ==> r[col] == CostEntry(p, zones[col])
  {
    seq(|zones|, col requires 0 <= col < |zones| => CostEntry(p, zones[col]))
  }

  /** The cost table, row-major, one row per connected plug and one column per
      zone. */
  function CostTable(plugs: seq<PlugInfo>, rows: seq<nat>, zones: seq<real>): (cells: seq<real>)
    requires forall i :: 0 <= i < |rows| ==> rows[i] < |plugs|
    ensures |cells| == |rows| * |zones|
  {
    if |rows| == 0 then []
    else
      var n := |rows| - 1;
      assert |rows| * |zones| == n * |zones| + |zones|;
      CostTable(plugs, rows[..n], zones) + CostRow(plugs[rows[n]], zones)
  }

  /** Row `row` of the cost table starts at `|zones| * row` and holds that row's
      plug's costs. */
  lemma {:induction false} CostTableRow(plugs: seq<PlugInfo>, rows: seq<nat>, zones: seq<real>, row: nat)
    requires forall i :: 0 <= i < |rows| ==> rows[i] < |plugs|
    requires row < |rows|
    ensures |zones| * row + |zones| <= |rows| * |zones|
    ensures CostTable(plugs, rows, zones)[|zones| * row .. |zones| * row + |zones|] == CostRow(plugs[rows[row]], zones)
  {
    RowSpan(|rows|, |zones|, row);
    var n := |rows| - 1;
    var prefix := CostTable(plugs, rows[..n], zones);
    assert |prefix| == |zones| * n;
    var cells := CostTable(plugs, rows, zones);
    assert cells == prefix + CostRow(plugs[rows[n]], zones);
    if row < n {
      CostTableRow(plugs, rows[..n], zones, row);
      RowSpan(n, |zones|, row);
      assert cells[|zones| * row .. |zones| * row + |zones|] == prefix[|zones| * row .. |zones| * row + |zones|];
    }
  }

  /** Cell `(row, col)` is the cost of putting that row's plug in zone `col`:
      (angular distance to the zone * priority) squared. */
  lemma {:induction false} CostTableEntry(plugs: seq<PlugInfo>, rows: seq<nat>, zones: seq<real>, row: nat, col: nat)
    requires forall i :: 0 <= i < |rows| ==> rows[i] < |plugs|
    requires row < |rows| && col < |zones|
    ensures |zones| * row + col < |rows| * |zones|
    ensures CostTable(plugs, rows, zones)[|zones| * row + col] == CostEntry(plugs[rows[row]], zones[col])
  {
    CellIndex(|rows|, |zones|, row, col);
    var n := |rows| - 1;
    var prefix := CostTable(plugs, rows[..n], zones);
    assert |prefix| == |zones| * n;
    if row < n {
      CostTableEntry(plugs, rows[..n], zones, row, col);
      CellIndex(n, |zones|, row, col);
    }
  }

  /** Filling the cost table (node.cpp:603-612). */
  method BuildCostTable(plugs: seq<PlugInfo>, plugDirections: seq<nat>, zones: array<real>)
    returns (costTable: array<real>)
    requires forall i :: 0 <= i < |plugDirections| ==> plugDirections[i] < |plugs|
    ensures fresh(costTable) && costTable[..] == CostTable(plugs, plugDirections, zones[..])
  {
    var connectedPlugCount := |plugDirections|;
    var evenZoneCount := zones.Length;
    ghost var cells := CostTable(plugs, plugDirections, zones[..]);
    costTable := new real[connectedPlugCount * evenZoneCount];
    ghost var filled := 0;
    for row := 0 to connectedPlugCount
      invariant filled == evenZoneCount * row <= costTable.Length
      invariant forall k :: 0 <= k < filled ==> costTable[k] == cells[k]
    {
      var plug := plugs[plugDirections[row]];
      var base := row * evenZoneCount;
      CostTableRow(plugs, plugDirections, zones[..], row);
      FillCostRow(costTable, base, plug, zones, cells);
      assert evenZoneCount * (row + 1) == evenZoneCount * row + evenZoneCount;
      filled := filled + evenZoneCount;
    }
    assert filled == costTable.Length;
    assert costTable[..] == cells;
  }

  /** The inner loop of the cost table (node.cpp:608-611): one plug's row,
      written from `base` on. */
  method FillCostRow(costTable: array<real>, base: nat, plug: PlugInfo, zones: array<real>, ghost cells: seq<real>)
    requires costTable != zones && |cells| == costTable.Length
    requires base + zones.Length <= costTable.Length
    requires cells[base .. base + zones.Length] == CostRow(plug, zones[..])
    requires forall k :: 0 <= k < base ==> costTable[k] == cells[k]
    modifies costTable
    ensures forall k :: 0 <= k < base + zones.Length ==> costTable[k] == cells[k]
  {
    for column := 0 to zones.Length
      invariant forall k :: 0 <= k < base + column ==> costTable[k] == cells[k]
    {
      assert cells[base + column] == cells[base .. base + zones.Length][column];
      var cost := AngularDistance(plug.target, zones[column]) * plug.priority;
      costTable[base + column] := cost * cost;
    }
  }

  /** The source computes costs in double precision and relies on them staying
      below DBL_MAX, where the solver's searches start. */
  predicate CostsBelowMax(plugs: seq<PlugInfo>, zones: seq<real>)
  {
    forall i, z :: 0 <= i < |plugs| && plugs[i].edgeCount > 0 && 0 <= z < |zones| ==>
      CostEntry(plugs[i], zones[z]) < DblMax
  }

  /** Targets and zones within [-pi, pi] and priorities with (pi * priority)^2
      below DBL_MAX keep every cost below DBL_MAX. */
  lemma CostsBelowMaxInRange(plugs: seq<PlugInfo>, zones: seq<real>)
    requires forall i :: 0 <= i < |plugs| ==> -(Pi as real) <= plugs[i].target <= Pi
    requires forall i :: 0 <= i < |plugs| ==>
               0.0 <= plugs[i].priority && (Pi * plugs[i].priority) * (Pi * plugs[i].priority) < DblMax
    requires forall z :: 0 <= z < |zones| ==> -(Pi as real) <= zones[z] <= Pi
    ensures CostsBelowMax(plugs, zones)
  {
    forall i, z | 0 <= i < |plugs| && plugs[i].edgeCount > 0 && 0 <= z < |zones|
      ensures CostEntry(plugs[i], zones[z]) < DblMax
    {
      CostBelowMax(plugs[i], zones[z]);
    }
  }

  lemma CostBelowMax(p: PlugInfo, zone: real)
    requires -(Pi as real) <= p.target <= Pi && -(Pi as real) <= zone <= Pi
    requires 0.0 <= p.priority && (Pi * p.priority) * (Pi * p.priority) < DblMax
    ensures CostEntry(p, zone) < DblMax
  {
    CostAtMostHalfTurn(p, zone);
  }

  /** No cost exceeds that of a plug half a turn away from its zone. */
  lemma CostAtMostHalfTurn(p: PlugInfo, zone: real)
    requires -(Pi as real) <= p.target <= Pi && -(Pi as real) <= zone <= Pi && 0.0 <= p.priority
    ensures CostEntry(p, zone) <= (Pi * p.priority) * (Pi * p.priority)
  {
    var d := AngularDistance(p.target, zone);
    assert Abs(p.target - zone) <= 2.0 * Pi;
    AngularDistanceIsShorterArc(p.target, zone);
    assert 0.0 <= d <= Pi;
    var cost, bound := d * p.priority, Pi * p.priority;
    ScaleMonotone(d, Pi, p.priority);
    ScaleMonotone(0.0, d, p.priority);
    SquareMonotone(cost, bound);
    assert CostEntry(p, zone) == cost * cost;
  }

  lemma ScaleMonotone(a: real, b: real, c: real)
    requires a <= b && 0.0 <= c
    ensures a * c <= b * c
  {
  }

  lemma SquareMonotone(a: real, b: real)
    requires 0.0 <= a <= b
    ensures a * a <= b * b
  {
  }

  /** The table the solver is called with meets its demands: at least one row,
      no more rows than zones, costs in [0, DBL_MAX). */
  lemma CostTableValid(plugs: seq<PlugInfo>, zones: seq<real>)
    requires |plugs| <= |zones| && Connected(plugs) != []
    requires CostsBelowMax(plugs, zones)
    ensures Table(CostTable(plugs, Connected(plugs), zones), |Connected(plugs)|, |zones|).Valid()
  {
    var rows := Connected(plugs);
    forall row | 0 <= row < |rows| ensures rows[row] < |plugs| && plugs[rows[row]].edgeCount > 0 {
      ConnectedMember(plugs, row);
    }
    CostsBelowMaxOnRows(plugs, rows, zones);
  }

  lemma {:induction false} CostsBelowMaxOnRows(plugs: seq<PlugInfo>, rows: seq<nat>, zones: seq<real>)
    requires forall row :: 0 <= row < |rows| ==> rows[row] < |plugs| && plugs[rows[row]].edgeCount > 0
    requires CostsBelowMax(plugs, zones)
    ensures forall k :: 0 <= k < |rows| * |zones| ==> 0.0 <= CostTable(plugs, rows, zones)[k] < DblMax
  {
    if |rows| > 0 {
      var n := |rows| - 1;
      CostsBelowMaxOnRows(plugs, rows[..n], zones);
      var prefix := CostTable(plugs, rows[..n], zones);
      var cells := CostTable(plugs, rows, zones);
      forall k | 0 <= k < |cells| ensures 0.0 <= cells[k] < DblMax {
        if k >= |prefix| {
          assert cells[k] == CostEntry(plugs[rows[n]], zones[k - |prefix|]);
        } else {
          assert cells[k] == prefix[k];
        }
      }
    }
  }

  // ---------------------------------------------------------------------------
  // Merging the solver's answer (node.cpp:593-625)
  // ---------------------------------------------------------------------------

  /** QVector::indexOf: the first position holding `v`, or -1. */
  function IndexOf(s: seq<nat>, v: nat): (r: int)
    ensures -1 <= r < |s|
    ensures r == -1 <==> v !in s
    ensures 0 <= r ==> s[r] == v && forall k :: 0 <= k < r ==> s[k] != v
  {
    if |s| == 0 then -1
    else if s[0] == v then 0
    else
      var r := IndexOf(s[1..], v);
      if r == -1 then -1 else r + 1
  }

  /** The trivial path: plug `i` in zone `i` (node.cpp:594-597). */
  function Identity(n: nat): (p: seq<nat>)
    ensures |p| == n && forall i :: 0 <= i < n ==> p[i] == i
  {
    seq(n, i => i)
  }

  /** One merge step: the plug takes `zone`, and the plug that held `zone`, if any,
      takes the plug's old zone (node.cpp:616-622). */
  function MergeStep(path: seq<nat>, plugIndex: nat, zone: nat): (q: seq<nat>)
    requires plugIndex < |path|
    ensures |q| == |path|
  {
    var tZoneIndex := path[plugIndex];
    var occupiedIndex := IndexOf(path, zone);
    var moved := path[plugIndex := zone];
    if occupiedIndex != -1 then moved[occupiedIndex := tZoneIndex] else moved
  }

  /** A merge step is a swap: the plug gets its zone, the displaced plug gets the
      vacated zone, nobody else moves, and a path of distinct zones below `e`
      stays one. */
  lemma MergeStepFacts(path: seq<nat>, plugIndex: nat, zone: nat, e: nat)
    requires plugIndex < |path|
    ensures var q := MergeStep(path, plugIndex, zone);
            q[plugIndex] == zone &&
            (zone in path ==> q[IndexOf(path, zone)] == path[plugIndex]) &&
            (forall k :: 0 <= k < |path| && k != plugIndex && (zone !in path || k != IndexOf(path, zone)) ==>
               q[k] == path[k])
    ensures Distinct(path) ==> Distinct(MergeStep(path, plugIndex, zone))
    ensures (forall k :: 0 <= k < |path| ==> path[k] < e) && zone < e ==>
              forall k :: 0 <= k < |path| ==> MergeStep(path, plugIndex, zone)[k] < e
  {
    var q := MergeStep(path, plugIndex, zone);
    if Distinct(path) {
      forall i, j | 0 <= i < j < |q| ensures q[i] != q[j] {
        if zone in path {
          var o := IndexOf(path, zone);
          assert forall k :: 0 <= k < |q| ==>
            q[k] == (if k == plugIndex then zone else if k == o then path[plugIndex] else path[k]);
        }
      }
    }
  }

  /** The first `|zones|` steps of the merge, row `i` going to `zones[i]`. */
  function Merge(path: seq<nat>, rows: seq<nat>, zones: seq<nat>): (q: seq<nat>)
    requires |rows| == |zones| && forall i :: 0 <= i < |rows| ==> rows[i] < |path|
    ensures |q| == |path|
  {
    if |zones| == 0 then path
    else MergeStep(Merge(path, rows[..|rows| - 1], zones[..|zones| - 1]), rows[|rows| - 1], zones[|zones| - 1])
  }

  /** Merging keeps the path injective into `[0, e)`. */
  lemma {:induction false} MergeKeepsInjective(path: seq<nat>, rows: seq<nat>, zones: seq<nat>, e: nat)
    requires |rows| == |zones| && forall i :: 0 <= i < |rows| ==> rows[i] < |path|
    requires Distinct(path) && forall k :: 0 <= k < |path| ==> path[k] < e
    requires forall i :: 0 <= i < |zones| ==> zones[i] < e
    ensures Distinct(Merge(path, rows, zones))
    ensures forall k :: 0 <= k < |path| ==> Merge(path, rows, zones)[k] < e
  {
    if |zones| > 0 {
      var n := |zones| - 1;
      MergeKeepsInjective(path, rows[..n], zones[..n], e);
      MergeStepFacts(Merge(path, rows[..n], zones[..n]), rows[n], zones[n], e);
    }
  }

  /** With distinct rows and distinct zones every row ends in the zone chosen for
      it: a later step never displaces an earlier row. */
  lemma {:induction false} MergeHonoursChoice(path: seq<nat>, rows: seq<nat>, zones: seq<nat>)
    requires |rows| == |zones| && forall i :: 0 <= i < |rows| ==> rows[i] < |path|
    requires Distinct(rows) && Distinct(zones)
    ensures forall j :: 0 <= j < |rows| ==> Merge(path, rows, zones)[rows[j]] == zones[j]
  {
    if |zones| > 0 {
      var n := |zones| - 1;
      var prev := Merge(path, rows[..n], zones[..n]);
      MergeHonoursChoice(path, rows[..n], zones[..n]);
      MergeStepFacts(prev, rows[n], zones[n], 0);
      forall j | 0 <= j < n ensures Merge(path, rows, zones)[rows[j]] == zones[j] {
        assert prev[rows[j]] == zones[j];
        assert rows[j] != rows[n] && zones[j] != zones[n];
      }
    }
  }

  /** Merging one more row is one more merge step. */
  lemma MergeOneMore(path: seq<nat>, rows: seq<nat>, zones: seq<nat>, i: nat)
    requires |rows| == |zones| && i < |rows| && forall j :: 0 <= j < |rows| ==> rows[j] < |path|
    ensures Merge(path, rows[..i + 1], zones[..i + 1]) == MergeStep(Merge(path, rows[..i], zones[..i]), rows[i], zones[i])
  {
    assert rows[..i + 1][..i] == rows[..i];
    assert zones[..i + 1][..i] == zones[..i];
  }

  /** Building the trivial path and merging the solver's answer into it
      (node.cpp:594-625). */
  method MergePath(plugCount: nat, plugDirections: seq<nat>, arrangement: seq<nat>)
    returns (optimalPath: array<nat>)
    requires |plugDirections| == |arrangement|
    requires forall i :: 0 <= i < |plugDirections| ==> plugDirections[i] < plugCount
    ensures fresh(optimalPath)
    ensures optimalPath[..] == Merge(Identity(plugCount), plugDirections, arrangement)
  {
    optimalPath := new nat[plugCount];
    for i := 0 to plugCount
      invariant forall k :: 0 <= k < i ==> optimalPath[k] == k
    {
      optimalPath[i] := i;
    }
    ghost var start := optimalPath[..];
    assert start == Identity(plugCount);
    for i := 0 to |arrangement|
      invariant optimalPath.Length == plugCount
      invariant optimalPath[..] == Merge(start, plugDirections[..i], arrangement[..i])
    {
      MergeOneMore(start, plugDirections, arrangement, i);
      ApplyMergeStep(optimalPath, plugDirections[i], arrangement[i]);
    }
    assert plugDirections[..|arrangement|] == plugDirections;
    assert arrangement[..|arrangement|] == arrangement;
  }

  /** One pass of the merge loop on the path array (node.cpp:616-622). */
  method ApplyMergeStep(optimalPath: array<nat>, plugIndex: nat, zoneIndex: nat)
    requires plugIndex < optimalPath.Length
    modifies optimalPath
    ensures optimalPath[..] == MergeStep(old(optimalPath[..]), plugIndex, zoneIndex)
  {
    var tZoneIndex := optimalPath[plugIndex];
    var occupiedIndex := IndexOf(optimalPath[..], zoneIndex);
    optimalPath[plugIndex] := zoneIndex;
    if occupiedIndex != -1 {
      optimalPath[occupiedIndex] := tZoneIndex;
    }
  }

  // ---------------------------------------------------------------------------
  // Collapsing the empty zone (node.cpp:627-665)
  // ---------------------------------------------------------------------------

  /** The smallest zone from `from` on that no plug holds, or -1. */
  function FirstAbsentFrom(path: seq<nat>, from: nat, e: nat): (z: int)
    ensures z == -1 || from <= z < e
    ensures z >= 0 ==> z !in path && forall k: nat :: from <= k < z ==> k in path
    ensures z == -1 ==> forall k: nat :: from <= k < e ==> k in path
    decreases e - from
  {
    if from >= e then -1
    else if from !in path then from
    else FirstAbsentFrom(path, from + 1, e)
  }

  function FirstAbsent(path: seq<nat>, e: nat): (z: int)
    ensures z == -1 || 0 <= z < e
  {
    FirstAbsentFrom(path, 0, e)
  }

  lemma DistinctValues(s: seq<nat>)
    requires Distinct(s)
    ensures |Values(s)| == |s|
  {
    if s != [] {
      assert Distinct(s[1..]);
      DistinctValues(s[1..]);
      assert s[0] !in s[1..];
    }
  }

  /** A path of fewer distinct zones than there are zones leaves one empty, and
      it is the first zone no plug holds. */
  lemma EmptyZoneExists(path: seq<nat>, e: nat)
    requires Distinct(path) && |path| < e
    ensures 0 <= FirstAbsent(path, e) < e
    ensures FirstAbsent(path, e) !in path
    ensures forall k: nat :: k < FirstAbsent(path, e) ==> k in path
  {
    if FirstAbsent(path, e) == -1 {
      assert Range(e) <= Values(path);
      SubsetCard(Range(e), Values(path));
      DistinctValues(path);
      assert false;
    }
  }

  /** Finding the empty zone (node.cpp:632-638). */
  method FindEmptyZone(optimalPath: array<nat>, evenZoneCount: nat) returns (emptyZoneIndex: int)
    ensures emptyZoneIndex == FirstAbsent(optimalPath[..], evenZoneCount)
  {
    emptyZoneIndex := -1;
    for i := 0 to evenZoneCount
      invariant FirstAbsentFrom(optimalPath[..], i, evenZoneCount) == FirstAbsent(optimalPath[..], evenZoneCount)
    {
      if i !in optimalPath[..] {
        emptyZoneIndex := i;
        break;
      }
    }
  }

  /** The rank, among the zones of `[start, end)` other than the empty one, of
      zone `i`. */
  function Rank(i: nat, start: nat, empty: int): nat
    requires start <= i
  {
    if start <= empty < i then i - start - 1 else i - start
  }

  /** The zones after the collapse (node.cpp:640-665): the zones of the empty
      zone's half other than the empty zone itself are laid out again for one
      zone fewer; every other zone keeps its direction. With one plug the half
      holds only the empty zone and the span, a division by zero in the source,
      is never used. */
  function Collapsed(zones: seq<real>, plugCount: nat, halfDead: real, gap: real, empty: int): (z: seq<real>)
    requires plugCount > 0 && |zones| == EvenZoneCount(plugCount)
    ensures |z| == |zones|
  {
    var h := HalfZoneCount(plugCount);
    var offset := if empty < h then 0.0 else -(Pi as real);
    var start := if empty < h then 0 else h;
    var newZoneSpan := if h > 1 then ZoneSpan(halfDead, gap, h - 1) else 0.0;
    seq(|zones|, i requires 0 <= i < |zones| =>
      if start <= i < start + h && i != empty
      then ZoneCentre(offset, halfDead, gap, newZoneSpan, Rank(i, start, empty))
      else zones[i])
  }

  /** Re-laying the half holding the empty zone (node.cpp:640-665). */
  method CollapseZone(zoneDirections: array<real>, plugCount: nat, halfDead: real, gap: real, emptyZoneIndex: int)
    requires plugCount > 0 && zoneDirections.Length == EvenZoneCount(plugCount)
    modifies zoneDirections
    ensures zoneDirections[..] == Collapsed(old(zoneDirections[..]), plugCount, halfDead, gap, emptyZoneIndex)
  {
    ghost var z := Collapsed(zoneDirections[..], plugCount, halfDead, gap, emptyZoneIndex);
    var evenZoneCount := zoneDirections.Length;
    var halfZoneCount := evenZoneCount / 2;
    var offset: real;
    var startIndex: nat, endIndex: nat;
    if emptyZoneIndex < halfZoneCount {
      offset := 0.0;
      startIndex := 0;
      endIndex := halfZoneCount;
    } else {
      offset := -(Pi as real);
      startIndex := halfZoneCount;
      endIndex := evenZoneCount;
    }
    var newZoneSpan := if halfZoneCount > 1
      then (Pi - (2.0 * halfDead) - ((halfZoneCount as real) * gap)) / ((halfZoneCount - 1) as real)
      else 0.0;
    assert halfZoneCount > 1 ==> newZoneSpan == ZoneSpan(halfDead, gap, halfZoneCount - 1);
    var currentAngle := offset + halfDead + gap + (newZoneSpan / 2.0);
    for index := startIndex to endIndex
      invariant currentAngle == ZoneCentre(offset, halfDead, gap, newZoneSpan, Rank(index, startIndex, emptyZoneIndex))
      invariant forall i :: 0 <= i < index ==> zoneDirections[i] == z[i]
      invariant forall i :: index <= i < evenZoneCount ==> zoneDirections[i] == old(zoneDirections[i])
    {
      if index == emptyZoneIndex {
        continue;
      }
      zoneDirections[index] := currentAngle;
      ZoneCentreStep(offset, halfDead, gap, newZoneSpan, Rank(index, startIndex, emptyZoneIndex));
      currentAngle := currentAngle + (gap + newZoneSpan);
    }
  }

  /** Where the `k`-th zone of a half other than the empty one sits. */
  function Skip(start: nat, k: nat, empty: int): nat
  {
    if start + k < empty then start + k else start + k + 1
  }

  /** The collapsed half is the same half of the layout built for one plug fewer:
      its remaining zones, in order, are the zones of an even layout of
      `plugCount - 1` plugs; the other half and the empty zone are untouched. */
  lemma CollapseIsSmallerLayout(plugCount: nat, halfDead: real, gap: real, empty: nat)
    requires plugCount > 1 && plugCount % 2 == 1 && empty < EvenZoneCount(plugCount)
    ensures var zones := InitialZones(plugCount, halfDead, gap);
            var z := Collapsed(zones, plugCount, halfDead, gap, empty);
            var small := InitialZones(plugCount - 1, halfDead, gap);
            var h := HalfZoneCount(plugCount);
            var start := if empty < h then 0 else h;
            var smallStart := if empty < h then 0 else h - 1;
            (forall k :: 0 <= k < h - 1 ==> Skip(start, k, empty) < |z| && z[Skip(start, k, empty)] == small[smallStart + k]) &&
            (forall i :: 0 <= i < |z| && (i == empty || i < start || start + h <= i) ==> z[i] == zones[i])
  {
    var zones := InitialZones(plugCount, halfDead, gap);
    var z := Collapsed(zones, plugCount, halfDead, gap, empty);
    var small := InitialZones(plugCount - 1, halfDead, gap);
    var h := HalfZoneCount(plugCount);
    var start := if empty < h then 0 else h;
    var smallStart := if empty < h then 0 else h - 1;
    assert HalfZoneCount(plugCount - 1) == h - 1;
    forall k | 0 <= k < h - 1 ensures Skip(start, k, empty) < |z| && z[Skip(start, k, empty)] == small[smallStart + k] {
      var i := Skip(start, k, empty);
      assert Rank(i, start, empty) == k;
    }
  }

  /** With a single plug the collapse changes nothing: the half holding the empty
      zone holds no other. */
  lemma CollapseOfOnePlug(zones: seq<real>, halfDead: real, gap: real, empty: nat)
    requires |zones| == 2 && empty < 2
    ensures Collapsed(zones, 1, halfDead, gap, empty) == zones
  {
  }

  // ---------------------------------------------------------------------------
  // The whole pass
  // ---------------------------------------------------------------------------

  /** The solver's zone for each connected plug (node.cpp:600-614): one zone per
      row, all different, all existing. */
  function Assignment(plugs: seq<PlugInfo>, halfDead: real, gap: real): (arrangement: seq<nat>)
    requires |plugs| > 0 && CostsBelowMax(plugs, InitialZones(|plugs|, halfDead, gap))
    ensures |arrangement| == |Connected(plugs)|
    ensures Distinct(arrangement)
    ensures forall j :: 0 <= j < |arrangement| ==> arrangement[j] < EvenZoneCount(|plugs|)
  {
    var zones := InitialZones(|plugs|, halfDead, gap);
    var rows := Connected(plugs);
    if rows == [] then []
    else
      CostTableValid(plugs, zones);
      ArrangeIsAssignment(Table(CostTable(plugs, rows, zones), |rows|, |zones|));
      Arrange(Table(CostTable(plugs, rows, zones), |rows|, |zones|))
  }

  /** The zone each plug ends in (node.cpp:593-625). */
  function LayoutPath(plugs: seq<PlugInfo>, halfDead: real, gap: real): (path: seq<nat>)
    requires |plugs| > 0 && CostsBelowMax(plugs, InitialZones(|plugs|, halfDead, gap))
    ensures |path| == |plugs|
  {
    Merge(Identity(|plugs|), Connected(plugs), Assignment(plugs, halfDead, gap))
  }

  /** The zone directions after the collapse, if there is one. */
  function LayoutZones(plugs: seq<PlugInfo>, halfDead: real, gap: real): (zones: seq<real>)
    requires |plugs| > 0 && CostsBelowMax(plugs, InitialZones(|plugs|, halfDead, gap))
    ensures |zones| == EvenZoneCount(|plugs|)
  {
    var zones := InitialZones(|plugs|, halfDead, gap);
    if |plugs| < |zones|
    then Collapsed(zones, |plugs|, halfDead, gap, FirstAbsent(LayoutPath(plugs, halfDead, gap), |zones|))
    else zones
  }

  /** The angle each plug is given (node.cpp:667-672); no plugs, no angles. */
  function Layout(plugs: seq<PlugInfo>, halfDead: real, gap: real): (angles: seq<real>)
    requires |plugs| > 0 ==> CostsBelowMax(plugs, InitialZones(|plugs|, halfDead, gap))
    ensures |angles| == |plugs|
  {
    if |plugs| == 0 then []
    else
      var path := LayoutPath(plugs, halfDead, gap);
      var zones := LayoutZones(plugs, halfDead, gap);
      LayoutPathFacts(plugs, halfDead, gap);
      seq(|plugs|, i requires 0 <= i < |plugs| => zones[path[i]])
  }

  /** Every plug gets its own zone; every connected plug gets the zone the solver
      chose for its row; with an odd plug count the collapsed zone is the first
      zone no plug holds. */
  lemma LayoutPathFacts(plugs: seq<PlugInfo>, halfDead: real, gap: real)
    requires |plugs| > 0 && CostsBelowMax(plugs, InitialZones(|plugs|, halfDead, gap))
    ensures var path := LayoutPath(plugs, halfDead, gap);
            Distinct(path) && forall i :: 0 <= i < |path| ==> path[i] < EvenZoneCount(|plugs|)
    ensures var rows := Connected(plugs);
            var arrangement := Assignment(plugs, halfDead, gap);
            forall j :: 0 <= j < |rows| ==> LayoutPath(plugs, halfDead, gap)[rows[j]] == arrangement[j]
    ensures |plugs| % 2 == 1 ==>
              var path := LayoutPath(plugs, halfDead, gap);
              var empty := FirstAbsent(path, EvenZoneCount(|plugs|));
              0 <= empty && empty !in path
  {
    LayoutPathInjective(plugs, halfDead, gap);
    LayoutPathHonoursAssignment(plugs, halfDead, gap);
    if |plugs| % 2 == 1 {
      EmptyZoneExists(LayoutPath(plugs, halfDead, gap), EvenZoneCount(|plugs|));
    }
  }

  lemma LayoutPathInjective(plugs: seq<PlugInfo>, halfDead: real, gap: real)
    requires |plugs| > 0 && CostsBelowMax(plugs, InitialZones(|plugs|, halfDead, gap))
    ensures var path := LayoutPath(plugs, halfDead, gap);
            Distinct(path) && forall i :: 0 <= i < |path| ==> path[i] < EvenZoneCount(|plugs|)
  {
    var id := Identity(|plugs|);
    assert Distinct(id);
    MergeKeepsInjective(id, Connected(plugs), Assignment(plugs, halfDead, gap), EvenZoneCount(|plugs|));
  }

  lemma LayoutPathHonoursAssignment(plugs: seq<PlugInfo>, halfDead: real, gap: real)
    requires |plugs| > 0 && CostsBelowMax(plugs, InitialZones(|plugs|, halfDead, gap))
    ensures var rows := Connected(plugs);
            var arrangement := Assignment(plugs, halfDead, gap);
            forall j :: 0 <= j < |rows| ==> LayoutPath(plugs, halfDead, gap)[rows[j]] == arrangement[j]
  {
    var rows := Connected(plugs);
    ConnectedSpec(plugs);
    IncreasingDistinct(rows);
    MergeHonoursChoice(Identity(|plugs|), rows, Assignment(plugs, halfDead, gap));
  }

  lemma IncreasingDistinct(s: seq<nat>)
    requires Increasing(s)
    ensures Distinct(s)
  {
  }

  /** Node::arrangePlugs (node.cpp:542-673): the angle at which each plug is
      placed. */
  method ArrangeNodePlugs(plugs: seq<PlugInfo>, halfDeadAngle: real, gapAngle: real)
    returns (angles: seq<real>)
    requires |plugs| > 0 ==> CostsBelowMax(plugs, InitialZones(|plugs|, halfDeadAngle, gapAngle))
    ensures angles == Layout(plugs, halfDeadAngle, gapAngle)
  {
    var plugCount := |plugs|;
    if plugCount == 0 {
      return [];
    }
    var zoneDirections := ZoneDirections(plugCount, halfDeadAngle, gapAngle);
    var optimalPath := PlugPath(plugs, halfDeadAngle, gapAngle, zoneDirections);
    LayoutPathFacts(plugs, halfDeadAngle, gapAngle);
    CollapseIfOdd(plugs, halfDeadAngle, gapAngle, zoneDirections, optimalPath);
    angles := PlaceOnZones(zoneDirections, optimalPath);
    LayoutUnfold(plugs, halfDeadAngle, gapAngle, angles);
  }

  /** Collapsing the unused zone, if it exists (node.cpp:627-665). */
  method CollapseIfOdd(plugs: seq<PlugInfo>, halfDeadAngle: real, gapAngle: real,
                       zoneDirections: array<real>, optimalPath: array<nat>)
    requires |plugs| > 0 && CostsBelowMax(plugs, InitialZones(|plugs|, halfDeadAngle, gapAngle))
    requires zoneDirections[..] == InitialZones(|plugs|, halfDeadAngle, gapAngle)
    requires optimalPath[..] == LayoutPath(plugs, halfDeadAngle, gapAngle)
    modifies zoneDirections
    ensures zoneDirections[..] == LayoutZones(plugs, halfDeadAngle, gapAngle)
  {
    var plugCount := |plugs|;
    var evenZoneCount := zoneDirections.Length;
    if plugCount < evenZoneCount {
      var emptyZoneIndex := FindEmptyZone(optimalPath, evenZoneCount);
      CollapseZone(zoneDirections, plugCount, halfDeadAngle, gapAngle, emptyZoneIndex);
    }
  }

  lemma LayoutUnfold(plugs: seq<PlugInfo>, halfDead: real, gap: real, angles: seq<real>)
    requires |plugs| > 0 && CostsBelowMax(plugs, InitialZones(|plugs|, halfDead, gap))
    requires |angles| == |plugs|
    requires forall i :: 0 <= i < |plugs| ==>
               LayoutPath(plugs, halfDead, gap)[i] < |LayoutZones(plugs, halfDead, gap)| &&
               angles[i] == LayoutZones(plugs, halfDead, gap)[LayoutPath(plugs, halfDead, gap)[i]]
    ensures angles == Layout(plugs, halfDead, gap)
  {
  }

  /** The zone of every plug (node.cpp:579-625): the cost table of the connected
      plugs, the solver's answer, and the merge into the trivial path. */
  method PlugPath(plugs: seq<PlugInfo>, halfDeadAngle: real, gapAngle: real, zoneDirections: array<real>)
    returns (optimalPath: array<nat>)
    requires |plugs| > 0 && CostsBelowMax(plugs, InitialZones(|plugs|, halfDeadAngle, gapAngle))
    requires zoneDirections[..] == InitialZones(|plugs|, halfDeadAngle, gapAngle)
    ensures fresh(optimalPath) && optimalPath[..] == LayoutPath(plugs, halfDeadAngle, gapAngle)
  {
    var plugDirections := ConnectedPlugs(plugs);
    var connectedPlugCount := |plugDirections|;
    if connectedPlugCount > 0 {
      var costTable := BuildCostTable(plugs, plugDirections, zoneDirections);
      CostTableValid(plugs, zoneDirections[..]);
      var arrangement := ArrangePlugs(costTable[..], connectedPlugCount, zoneDirections.Length);
      optimalPath := MergePath(|plugs|, plugDirections, arrangement);
    } else {
      optimalPath := MergePath(|plugs|, plugDirections, []);
    }
  }

  /** Applying the placement (node.cpp:667-672): each plug is given the direction
      of its zone. */
  method PlaceOnZones(zoneDirections: array<real>, optimalPath: array<nat>) returns (angles: seq<real>)
    requires forall i :: 0 <= i < optimalPath.Length ==> optimalPath[i] < zoneDirections.Length
    ensures |angles| == optimalPath.Length
    ensures forall i :: 0 <= i < optimalPath.Length ==> angles[i] == zoneDirections[optimalPath[i]]
  {
    angles := [];
    for plugIndex := 0 to optimalPath.Length
      invariant |angles| == plugIndex
      invariant forall i :: 0 <= i < plugIndex ==> angles[i] == zoneDirections[optimalPath[i]]
    {
      angles := angles + [zoneDirections[optimalPath[plugIndex]]];
    }
  }
}
