/**
 Sliding windows over one sub-path: Flow.calculate_window_size and the nested loops of the sliding-window branch
 of Flow.create_cells (Master/Python/flow.py).
 */
module Windows {
  import opened Sequences
  import opened Graphs
  import opened SubFlows
  import opened Options

  // ----- Window sizes -----

  datatype WindowAlgorithm =
    | EtxBased | EtxBasedDoubled | EtxBasedTrippled
    | EtxLinkBased | EtxLinkBasedDoubled | EtxLinkBasedTrippled
    | Fixed

  /** `Unsupported` is the ValueError, `Missing` the KeyError of algorithm `Fixed` without a size. */
  datatype WindowSize = Size(w: int) | Unsupported | Missing

  /** math.ceil */
  function Ceil(x: real): int { -(-x).Floor }

  /** n is the least integer that is not below x. */
  ghost predicate LeastAbove(x: real, n: int) {
    n as real - 1.0 < x <= n as real
  }

  lemma CeilIsLeast(x: real, n: int)
    ensures LeastAbove(x, n) <==> n == Ceil(x)
  {
  }

  /** Expected transmission counts are at least one. */
  ghost predicate EtxGraph(g: Graph) {
    forall u, v :: Edge(g, u, v) ==> g[u][v] >= 1.0
  }

  ghost function CeilSum(g: Graph, p: seq<Node>, hops: nat): int
    requires IsPath(g, p) && hops < |p|
  {
    if hops == 0 then 0
    else
      assert Edge(g, p[hops - 1], p[hops - 1 + 1]);
      CeilSum(g, p, hops - 1) + Ceil(g[p[hops - 1]][p[hops]])
  }

  function Sum(ns: seq<int>): int {
    if ns == [] then 0 else Sum(ns[..|ns| - 1]) + ns[|ns| - 1]
  }

  /** Each of the numbers is the ETX of its link, rounded up. */
  ghost predicate RoundedUp(g: Graph, p: seq<Node>, ns: seq<int>) {
    |ns| < |p| && forall i :: 0 <= i < |ns| ==> Edge(g, p[i], p[i + 1]) && LeastAbove(g[p[i]][p[i + 1]], ns[i])
  }

  lemma {:induction false} CeilSumIs(g: Graph, p: seq<Node>, ns: seq<int>)
    requires IsPath(g, p) && RoundedUp(g, p, ns)
    ensures CeilSum(g, p, |ns|) == Sum(ns)
  {
    if ns != [] {
      var i := |ns| - 1;
      CeilSumIs(g, p, ns[..i]);
      assert Edge(g, p[i], p[i + 1]);
      CeilIsLeast(g[p[i]][p[i + 1]], ns[i]);
    }
  }

  lemma {:induction false} EtxSumsAtLeastHops(g: Graph, p: seq<Node>, hops: nat)
    requires IsPath(g, p) && hops < |p| && EtxGraph(g)
    ensures IsPath(g, p[..hops + 1])
    ensures hops as real <= Cost(g, p[..hops + 1]) <= CeilSum(g, p, hops) as real
  {
    PathSlice(g, p, 0, hops + 1);
    if hops > 0 {
      EtxSumsAtLeastHops(g, p, hops - 1);
      assert Edge(g, p[hops - 1], p[hops - 1 + 1]);
      assert p[..hops + 1][..hops] == p[..hops];
    }
  }

  /** How often the ETX is multiplied before the window is sized. */
  function Factor(alg: WindowAlgorithm): int {
    match alg
    case EtxBasedDoubled | EtxLinkBasedDoubled => 2
    case EtxBasedTrippled | EtxLinkBasedTrippled => 3
    case _ => 1
  }

  predicate LinkBased(alg: WindowAlgorithm) {
    alg in {EtxLinkBased, EtxLinkBasedDoubled, EtxLinkBasedTrippled}
  }

  /** The number of cells the window leaves for a sub-path is its (scaled, rounded-up) ETX. */
  ghost function Slots(g: Graph, sub: seq<Node>, alg: WindowAlgorithm): int
    requires IsPath(g, sub)
  {
    if LinkBased(alg) then Factor(alg) * CeilSum(g, sub, |sub| - 1)
    else Ceil(Factor(alg) as real * Cost(g, sub))
  }

  /** The window size: the fixed one where it is given, else what leaves exactly that number of cells. */
  ghost function WindowFor(g: Graph, sub: seq<Node>, alg: WindowAlgorithm, fixed: Option<int>): int
    requires IsPath(g, sub)
  {
    if fixed.Some? && fixed.value != 0 then fixed.value else Slots(g, sub, alg) - (|sub| - 1) + 2
  }

  /** `cells` is the number of cells that an algorithm asks for, said of the ETX of the sub-path and of its links. */
  ghost predicate CellsAsked(g: Graph, sub: seq<Node>, alg: WindowAlgorithm, cells: int)
    requires IsPath(g, sub)
  {
    match alg
    case EtxBased => LeastAbove(Cost(g, sub), cells)
    case EtxBasedDoubled => LeastAbove(2.0 * Cost(g, sub), cells)
    case EtxBasedTrippled => LeastAbove(3.0 * Cost(g, sub), cells)
    case EtxLinkBased => forall ns :: RoundedUp(g, sub, ns) && |ns| == |sub| - 1 ==> cells == Sum(ns)
    case EtxLinkBasedDoubled => forall ns :: RoundedUp(g, sub, ns) && |ns| == |sub| - 1 ==> cells == Sum(ns) + Sum(ns)
    case EtxLinkBasedTrippled => forall ns :: RoundedUp(g, sub, ns) && |ns| == |sub| - 1 ==> cells == Sum(ns) + Sum(ns) + Sum(ns)
    case Fixed => true
  }

  lemma SlotsAreAsked(g: Graph, sub: seq<Node>, alg: WindowAlgorithm)
    requires IsPath(g, sub)
    ensures CellsAsked(g, sub, alg, Slots(g, sub, alg))
  {
    if LinkBased(alg) {
      forall ns | RoundedUp(g, sub, ns) && |ns| == |sub| - 1
        ensures CeilSum(g, sub, |sub| - 1) == Sum(ns)
      {
        CeilSumIs(g, sub, ns);
      }
    } else {
      CeilIsLeast(Factor(alg) as real * Cost(g, sub), Slots(g, sub, alg));
    }
  }

  /** Such numbers exist, so the link-based algorithms ask for exactly one number of cells. */
  lemma {:induction false} RoundingExists(g: Graph, p: seq<Node>, hops: nat) returns (ns: seq<int>)
    requires IsPath(g, p) && hops < |p|
    ensures |ns| == hops && RoundedUp(g, p, ns)
  {
    if hops == 0 {
      ns := [];
    } else {
      var front := RoundingExists(g, p, hops - 1);
      assert Edge(g, p[hops - 1], p[hops - 1 + 1]);
      CeilIsLeast(g[p[hops - 1]][p[hops]], Ceil(g[p[hops - 1]][p[hops]]));
      ns := front + [Ceil(g[p[hops - 1]][p[hops]])];
    }
  }

  /** An algorithm asks for one number of cells only. */
  lemma AskedOnce(g: Graph, sub: seq<Node>, alg: WindowAlgorithm, a: int, b: int)
    requires IsPath(g, sub) && alg != Fixed && CellsAsked(g, sub, alg, a) && CellsAsked(g, sub, alg, b)
    ensures a == b
  {
    var ns := RoundingExists(g, sub, |sub| - 1);
  }

  /** The loop over the links of a sub-path. */
  method SumOfCeilings(g: Graph, sub: seq<Node>) returns (cost: int)
    requires IsPath(g, sub)
    ensures cost == CeilSum(g, sub, |sub| - 1)
  {
    cost := 0;
    for hop := 0 to |sub| - 1
      invariant cost == CeilSum(g, sub, hop)
    {
      assert Edge(g, sub[hop], sub[hop + 1]);
      cost := cost + Ceil(g[sub[hop]][sub[hop + 1]]);
    }
  }

  /** With ETX at least one there is a cell for every hop. */
  lemma SlotsCoverHops(g: Graph, sub: seq<Node>, alg: WindowAlgorithm)
    requires IsPath(g, sub) && EtxGraph(g)
    ensures Slots(g, sub, alg) >= |sub| - 1
  {
    EtxSumsAtLeastHops(g, sub, |sub| - 1);
    assert sub[..|sub| - 1 + 1] == sub;
    var cost := Cost(g, sub);
    assert Factor(alg) as real * cost >= cost;
  }

  method CalculateWindowSize(g: Graph, sub: seq<Node>, subCost: real, alg: WindowAlgorithm, fixed: Option<int>)
    returns (r: WindowSize)
    requires IsPath(g, sub) && subCost == Cost(g, sub)
    ensures fixed.Some? && fixed.value != 0 ==> r == if fixed.value < 2 then Unsupported else Size(fixed.value)
    ensures fixed.None? || fixed.value == 0 ==>
              if alg == Fixed then r == Missing
              else r.Size? && CellsAsked(g, sub, alg, |sub| - 1 + r.w - 2)
    ensures r.Size? ==> r.w == WindowFor(g, sub, alg, fixed)
    ensures EtxGraph(g) && r.Size? ==> r.w >= 2
  {
    hide EtxGraph, IsPath, CellsAsked;
    if fixed.Some? && fixed.value != 0 {
      return if fixed.value < 2 then Unsupported else Size(fixed.value);
    }
    var hops := |sub| - 1;
    var cost := 0;
    if alg == EtxBased {
      cost := Ceil(subCost);
    } else if alg == EtxBasedDoubled {
      cost := Ceil(2.0 * subCost);
    } else if alg == EtxBasedTrippled {
      cost := Ceil(3.0 * subCost);
    } else if LinkBased(alg) {
      cost := SumOfCeilings(g, sub);
    }
    if EtxGraph(g) {
      SlotsCoverHops(g, sub, alg);
    }
    SlotsAreAsked(g, sub, alg);
    match alg {
      case EtxBased | EtxBasedDoubled | EtxBasedTrippled | EtxLinkBased => r := Size(cost - hops + 2);
      case EtxLinkBasedDoubled => r := Size(2 * cost - hops + 2);
      case EtxLinkBasedTrippled => r := Size(3 * cost - hops + 2);
      case Fixed => r := Missing;
    }
  }

  // ----- The participants of each cell -----

  predicate ValidWindow(sub: seq<Node>, w: int) {
    |sub| >= 2 && w >= 2
  }

  function Lowest(w: int, j: nat): nat { Max(0, j - w + 2) }

  function Highest(sub: seq<Node>, j: nat): int { Min(|sub| - 1, j + 1) }

  function NumSlots(sub: seq<Node>, w: int): (n: nat)
    requires ValidWindow(sub, w)
    ensures n >= |sub| - 1
  {
    |sub| - 1 + w - 2
  }

  /** Cell j of the window: at most w consecutive nodes of the sub-path, moving on by one node per cell. */
  function WindowCell(sub: seq<Node>, w: int, j: nat): (c: seq<Node>)
    requires ValidWindow(sub, w) && j < NumSlots(sub, w)
    ensures 2 <= |c| <= w
  {
    sub[Lowest(w, j)..Highest(sub, j) + 1]
  }

  function WindowCells(sub: seq<Node>, w: int): (cells: seq<seq<Node>>)
    requires ValidWindow(sub, w)
    ensures |cells| == NumSlots(sub, w)
    ensures forall j :: 0 <= j < |cells| ==> cells[j] == WindowCell(sub, w, j)
  {
    seq(NumSlots(sub, w), j requires 0 <= j < NumSlots(sub, w) => WindowCell(sub, w, j))
  }

  /** The part of cell j that stems from the first p nodes of the sub-path. */
  ghost function Partial(sub: seq<Node>, w: int, j: nat, p: nat): seq<Node>
    requires ValidWindow(sub, w) && j < NumSlots(sub, w) && p <= |sub|
  {
    sub[Lowest(w, j)..Max(Lowest(w, j), Min(Highest(sub, j) + 1, p))]
  }

  /** Appends a participant to the lists from..to. */
  method InsertParticipant(lists: seq<seq<Node>>, v: Node, from: int, to: int) returns (r: seq<seq<Node>>)
    requires from < to ==> 0 <= from && to <= |lists|
    ensures |r| == |lists|
    ensures forall j :: 0 <= j < |r| ==> r[j] == if from <= j < to then lists[j] + [v] else lists[j]
  {
    r := lists;
    var j := from;
    while j < to
      invariant |r| == |lists| && (from <= to ==> from <= j <= to) && (from > to ==> j == from)
      invariant forall i :: 0 <= i < |r| ==> r[i] == if from <= i < j then lists[i] + [v] else lists[i]
    {
      r := r[j := r[j] + [v]];
      j := j + 1;
    }
  }

  /** The insertion range of node p, as the three branches of the source give it. */
  function InsertFrom(p: nat): nat { if p == 0 then 0 else p - 1 }

  function InsertTo(sub: seq<Node>, w: int, p: nat): int {
    if p == 0 then w - 1 else if p == |sub| - 1 then p + w - 2 else p + w - 1
  }

  ghost predicate Filled(cells: seq<seq<Node>>, sub: seq<Node>, w: int, p: nat)
    requires ValidWindow(sub, w) && p <= |sub|
  {
    |cells| == NumSlots(sub, w) && forall j :: 0 <= j < |cells| ==> cells[j] == Partial(sub, w, j, p)
  }

  lemma FillStarts(cells: seq<seq<Node>>, sub: seq<Node>, w: int)
    requires ValidWindow(sub, w) && |cells| == NumSlots(sub, w) && forall j :: 0 <= j < |cells| ==> cells[j] == []
    ensures Filled(cells, sub, w, 0)
  {
  }

  lemma FillStep(cells: seq<seq<Node>>, more: seq<seq<Node>>, sub: seq<Node>, w: int, p: nat)
    requires ValidWindow(sub, w) && p < |sub| && Filled(cells, sub, w, p) && |more| == |cells|
    requires forall j :: 0 <= j < |more| ==>
               more[j] == if InsertFrom(p) <= j < InsertTo(sub, w, p) then cells[j] + [sub[p]] else cells[j]
    ensures Filled(more, sub, w, p + 1)
  {
    forall j | 0 <= j < |more|
      ensures more[j] == Partial(sub, w, j, p + 1)
    {
      PartialStep(sub, w, j, p);
    }
  }

  lemma FillEnds(cells: seq<seq<Node>>, sub: seq<Node>, w: int)
    requires ValidWindow(sub, w) && Filled(cells, sub, w, |sub|)
    ensures cells == WindowCells(sub, w)
  {
  }

  lemma PartialStep(sub: seq<Node>, w: int, j: nat, p: nat)
    requires ValidWindow(sub, w) && j < NumSlots(sub, w) && p < |sub|
    ensures Partial(sub, w, j, p + 1) ==
            if InsertFrom(p) <= j < InsertTo(sub, w, p) then Partial(sub, w, j, p) + [sub[p]] else Partial(sub, w, j, p)
  {
  }

  /** The dictionary after the first n senders of a sub-path have been given their counts, in order. */
  function Assigned(sends: map<Node, int>, sub: seq<Node>, counts: seq<int>, n: nat): map<Node, int>
    requires n <= |sub| && n <= |counts|
  {
    if n == 0 then sends else Assigned(sends, sub, counts, n - 1)[sub[n - 1] := counts[n - 1]]
  }

  /** Each of the first n senders has its own count. */
  lemma {:induction false} AssignedSender(sends: map<Node, int>, sub: seq<Node>, counts: seq<int>, n: nat, i: nat)
    requires i < n <= |sub| && n <= |counts| && Distinct(sub)
    ensures sub[i] in Assigned(sends, sub, counts, n) && Assigned(sends, sub, counts, n)[sub[i]] == counts[i]
  {
    if i < n - 1 {
      AssignedSender(sends, sub, counts, n - 1, i);
    }
  }

  /** Other nodes keep what they had. */
  lemma {:induction false} AssignedOther(sends: map<Node, int>, sub: seq<Node>, counts: seq<int>, n: nat, v: Node)
    requires n <= |sub| && n <= |counts| && forall i :: 0 <= i < n ==> sub[i] != v
    ensures v in Assigned(sends, sub, counts, n) <==> v in sends
    ensures v in sends ==> Assigned(sends, sub, counts, n)[v] == sends[v]
  {
    if n > 0 {
      AssignedOther(sends, sub, counts, n - 1, v);
    }
  }

  function Copies<T>(x: T, n: nat): (s: seq<T>)
    ensures |s| == n && forall i :: 0 <= i < n ==> s[i] == x
  {
    seq(n, _ => x)
  }

  /** Fills the participant lists of a sub-path and records each sender's number of sending cells. */
  method FillWindow(sub: seq<Node>, w: int, sends: map<Node, int>) returns (cells: seq<seq<Node>>, sends': map<Node, int>)
    requires ValidWindow(sub, w)
    ensures cells == WindowCells(sub, w)
    ensures sends' == Assigned(sends, sub, Copies(w - 1, |sub| - 1), |sub| - 1)
  {
    cells := seq(NumSlots(sub, w), _ => []);
    sends' := sends;
    FillStarts(cells, sub, w);
    for p := 0 to |sub|
      invariant Filled(cells, sub, w, p)
      invariant sends' == Assigned(sends, sub, Copies(w - 1, |sub| - 1), Min(p, |sub| - 1))
    {
      var from, to := InsertFrom(p), InsertTo(sub, w, p);
      if p == 0 {
        sends' := sends'[sub[p] := to - from];
      } else if p < |sub| - 1 {
        sends' := sends'[sub[p] := to - from - 1];
      }
      var more := InsertParticipant(cells, sub[p], from, to);
      FillStep(cells, more, sub, w, p);
      cells := more;
    }
    FillEnds(cells, sub, w);
  }
}
