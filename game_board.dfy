/**
 * The board of a QR-Pac round: one food node per dark module of the QR
 * symbol, a random tenth of them turned yellow and a random 7.5 % red,
 * and the black-and-white image the engine hands to the QR decoder,
 * rasterised from the nodes still alive.
 */
module GameBoard {
  import opened GameConfig
  import opened Draws

  datatype Kind = White | Yellow | Red

  /** A food node: its centre in grid cells, whether it is still on the board, its kind. */
  datatype Food = Food(x: real, y: real, alive: bool, kind: Kind)

  /** A module matrix, row by row; `true` is a dark module. */
  type Grid = seq<seq<bool>>

  predicate IsSquare(m: Grid)
  {
    forall r :: 0 <= r < |m| ==> |m[r]| == |m|
  }

  /** Cell p comes before cell (r, c) in row-major order. */
  predicate Before(p: (nat, nat), r: nat, c: nat)
  {
    p.0 < r || (p.0 == r && p.1 < c)
  }

  /** Cell p comes before cell q in row-major order. */
  predicate Precedes(p: (nat, nat), q: (nat, nat))
  {
    Before(p, q.0, q.1)
  }

  /** Dark cells of m up to (not including) cell (r, c), in row-major order. */
  function Cells(m: Grid, r: nat, c: nat): seq<(nat, nat)>
    requires IsSquare(m) && r <= |m| && c <= |m| && (r == |m| ==> c == 0)
    decreases r, c
  {
    if c == 0 then (if r == 0 then [] else Cells(m, r - 1, |m|))
    else Cells(m, r, c - 1) + (if m[r][c - 1] then [(r, c - 1)] else [])
  }

  /** All dark cells of m. */
  function DarkCells(m: Grid): seq<(nat, nat)>
    requires IsSquare(m)
  {
    Cells(m, |m|, 0)
  }

  /** Every listed cell is a dark cell of m that comes before (r, c). */
  lemma {:induction false} CellsSound(m: Grid, r: nat, c: nat)
    requires IsSquare(m) && r <= |m| && c <= |m| && (r == |m| ==> c == 0)
    ensures forall p :: p in Cells(m, r, c) ==> p.0 < |m| && p.1 < |m| && m[p.0][p.1] && Before(p, r, c)
    decreases r, c
  {
    if c == 0 {
      if r > 0 {
        CellsSound(m, r - 1, |m|);
      }
    } else {
      CellsSound(m, r, c - 1);
    }
  }

  /** The list is in strict row-major order. */
  lemma {:induction false} CellsOrdered(m: Grid, r: nat, c: nat)
    requires IsSquare(m) && r <= |m| && c <= |m| && (r == |m| ==> c == 0)
    ensures forall i, j :: 0 <= i < j < |Cells(m, r, c)| ==> Precedes(Cells(m, r, c)[i], Cells(m, r, c)[j])
    decreases r, c
  {
    if c == 0 {
      if r > 0 {
        CellsOrdered(m, r - 1, |m|);
      }
    } else {
      CellsOrdered(m, r, c - 1);
      CellsSound(m, r, c - 1);
      var prev := Cells(m, r, c - 1);
      var cs := Cells(m, r, c);
      assert cs == prev + (if m[r][c - 1] then [(r, c - 1)] else []);
      forall i, j | 0 <= i < j < |cs| ensures Precedes(cs[i], cs[j])
      {
        if j < |prev| {
          assert cs[i] == prev[i] && cs[j] == prev[j];
        } else {
          assert cs[j] == (r, c - 1) && cs[i] == prev[i];
          assert prev[i] in prev;
          assert Before(prev[i], r, c - 1);
        }
      }
    }
  }

  /** Every dark cell that comes before (r, c) is listed. */
  lemma {:induction false} CellsComplete(m: Grid, r: nat, c: nat, r': nat, c': nat)
    requires IsSquare(m) && r <= |m| && c <= |m| && (r == |m| ==> c == 0)
    requires r' < |m| && c' < |m| && m[r'][c'] && Before((r', c'), r, c)
    ensures (r', c') in Cells(m, r, c)
    decreases r, c
  {
    if c == 0 {
      CellsComplete(m, r - 1, |m|, r', c');
    } else if (r', c') != (r, c - 1) {
      CellsComplete(m, r, c - 1, r', c');
    }
  }

  /** Number of dark modules in a row. */
  function CountTrue(row: seq<bool>): nat
  {
    if row == [] then 0 else CountTrue(row[..|row| - 1]) + (if row[|row| - 1] then 1 else 0)
  }

  /** Number of dark modules in the first r rows. */
  function DarkInRows(m: Grid, r: nat): nat
    requires r <= |m|
  {
    if r == 0 then 0 else DarkInRows(m, r - 1) + CountTrue(m[r - 1])
  }

  /** The dark-cell list is as long as the count of dark modules. */
  lemma {:induction false} CellsCount(m: Grid, r: nat, c: nat)
    requires IsSquare(m) && r <= |m| && c <= |m| && (r == |m| ==> c == 0)
    ensures r < |m| ==> |Cells(m, r, c)| == DarkInRows(m, r) + CountTrue(m[r][..c])
    ensures r == |m| ==> |Cells(m, r, c)| == DarkInRows(m, r)
    decreases r, c
  {
    if c == 0 {
      if r > 0 {
        CellsCount(m, r - 1, |m|);
        assert m[r - 1][..|m|] == m[r - 1];
      }
    } else {
      CellsCount(m, r, c - 1);
      assert m[r][..c][..c - 1] == m[r][..c - 1];
    }
  }

  /** The node of a dark cell: centred in the cell, alive, white. */
  function NodeAt(p: (nat, nat)): Food
  {
    Food(p.1 as real + 0.5, p.0 as real + 0.5, true, White)
  }

  /** The nodes of a fresh board: exactly one per dark cell, in row-major order. */
  predicate FreshFoods(m: Grid, foods: seq<Food>)
    requires IsSquare(m)
  {
    var cs := DarkCells(m);
    |foods| == |cs| && forall i :: 0 <= i < |foods| ==> foods[i] == NodeAt(cs[i])
  }

  /** The nodes of a board being played: one per dark cell, in row-major order, whatever their kinds. */
  predicate Placed(m: Grid, foods: seq<Food>)
    requires IsSquare(m)
  {
    var cs := DarkCells(m);
    |foods| == |cs| && forall i :: 0 <= i < |foods| ==> foods[i] == NodeAt(cs[i]).(kind := foods[i].kind)
  }

  /** The food-construction loops of `buildQR`: one node per dark module, row by row. */
  method BuildFoods(m: Grid) returns (foods: seq<Food>)
    requires IsSquare(m)
    ensures FreshFoods(m, foods)
    ensures |foods| == DarkInRows(m, |m|)
  {
    var n := |m|;
    foods := [];
    var r := 0;
    while r < n
      invariant 0 <= r <= n
      invariant |foods| == |Cells(m, r, 0)|
      invariant forall i :: 0 <= i < |foods| ==> foods[i] == NodeAt(Cells(m, r, 0)[i])
    {
      var c := 0;
      while c < n
        invariant 0 <= c <= n
        invariant |foods| == |Cells(m, r, c)|
        invariant forall i :: 0 <= i < |foods| ==> foods[i] == NodeAt(Cells(m, r, c)[i])
      {
        if m[r][c] {
          foods := foods + [NodeAt((r, c))];
        }
        c := c + 1;
      }
      r := r + 1;
    }
    CellsCount(m, n, 0);
  }

  /** Yellow and red counts: a tenth and 7.5 % of the nodes, rounded down. */
  function YellowCount(n: nat): (y: nat)
    ensures y as real <= n as real * 0.1
  {
    (n as real * 0.1).Floor
  }

  function RedCount(n: nat): (r: nat)
    ensures r as real <= n as real * 0.075
  {
    (n as real * 0.075).Floor
  }

  /** Yellows and reds together never outnumber the nodes. */
  lemma SpecialsFit(n: nat)
    ensures YellowCount(n) + RedCount(n) <= n
  {
  }

  /** No index repeats. */
  predicate Distinct(s: seq<nat>)
  {
    forall p, q :: 0 <= p < q < |s| ==> s[p] != s[q]
  }

  /** Joining two repeat-free sequences with nothing in common gives a repeat-free sequence. */
  lemma DistinctConcat(a: seq<nat>, b: seq<nat>)
    requires Distinct(a) && Distinct(b)
    requires forall p, q :: 0 <= p < |a| && 0 <= q < |b| ==> a[p] != b[q]
    ensures Distinct(a + b)
  {
  }

  /** 0, 1, ..., n-1. */
  function Range(n: nat): (s: seq<nat>)
    ensures |s| == n && forall i :: 0 <= i < n ==> s[i] == i
  {
    seq(n, i requires 0 <= i => i as nat)
  }

  /** Swapping two entries keeps a sequence free of repeats. */
  lemma SwapDistinct(s: seq<nat>, i: nat, j: nat)
    requires i < |s| && j < |s| && Distinct(s)
    ensures Distinct(s[i := s[j]][j := s[i]])
  {
    var t := s[i := s[j]][j := s[i]];
    forall p, q | 0 <= p < q < |t| ensures t[p] != t[q]
    {
      var p' := if p == i then j else if p == j then i else p;
      var q' := if q == i then j else if q == j then i else q;
      assert t[p] == s[p'] && t[q] == s[q'];
    }
  }

  /** Swapping two entries keeps the multiset of entries. */
  lemma SwapMultiset(s: seq<nat>, i: nat, j: nat)
    requires i < |s| && j < |s|
    ensures multiset(s[i := s[j]][j := s[i]]) == multiset(s)
  {
    var t := s[i := s[j]];
    assert multiset(t) == multiset(s) - multiset{s[i]} + multiset{s[j]};
    assert t[j] == s[j];
  }

  /**
   * The Fisher–Yates loop of `buildQR`: for i from the last index down to 1,
   * swap entry i with entry ⌊roll·(i+1)⌋. The array ends as a permutation
   * of its old contents.
   */
  method Shuffle(a: array<nat>, rolls: seq<real>)
    modifies a
    ensures multiset(a[..]) == multiset(old(a[..]))
    ensures Distinct(old(a[..])) ==> Distinct(a[..])
  {
    var i := a.Length - 1;
    var k := 0;
    while i > 0
      invariant -1 <= i < a.Length
      invariant multiset(a[..]) == multiset(old(a[..]))
      invariant Distinct(old(a[..])) ==> Distinct(a[..])
    {
      var j := PickIndex(Roll(rolls, k), i + 1);
      ghost var before := a[..];
      a[i], a[j] := a[j], a[i];
      assert a[..] == before[i := before[j]][j := before[i]];
      SwapMultiset(before, i, j);
      if Distinct(old(a[..])) {
        SwapDistinct(before, i, j);
      }
      i := i - 1;
      k := k + 1;
    }
  }

  /** Number of nodes of a kind. */
  function CountKind(s: seq<Food>, k: Kind): nat
  {
    if s == [] then 0 else CountKind(s[..|s| - 1], k) + (if s[|s| - 1].kind == k then 1 else 0)
  }

  /** Replacing one node moves the count of its old kind down by one and of its new kind up by one. */
  lemma {:induction false} CountKindUpdate(s: seq<Food>, i: nat, f: Food, k: Kind)
    requires i < |s|
    ensures CountKind(s[i := f], k)
      == CountKind(s, k) - (if s[i].kind == k then 1 else 0) + (if f.kind == k then 1 else 0)
    decreases |s|
  {
    var t := s[i := f];
    if i < |s| - 1 {
      assert t[..|t| - 1] == s[..|s| - 1][i := f];
      CountKindUpdate(s[..|s| - 1], i, f, k);
    } else {
      assert t[..|t| - 1] == s[..|s| - 1];
    }
  }

  /** All nodes white: each kind count follows. */
  lemma {:induction false} CountAllWhite(s: seq<Food>)
    requires forall i :: 0 <= i < |s| ==> s[i].kind == White
    ensures CountKind(s, White) == |s| && CountKind(s, Yellow) == 0 && CountKind(s, Red) == 0
  {
    if s != [] {
      CountAllWhite(s[..|s| - 1]);
    }
  }

  /**
   * One colouring loop of `buildQR`: the nodes at shuffled positions
   * from..to-1, all white so far, take kind k. Nothing else changes.
   */
  method PaintRun(s: seq<Food>, idxs: seq<nat>, from: nat, to: nat, k: Kind) returns (out: seq<Food>)
    requires k != White && from <= to <= |idxs| && Distinct(idxs)
    requires forall t :: 0 <= t < |idxs| ==> idxs[t] < |s|
    requires forall t :: from <= t < |idxs| ==> s[idxs[t]].kind == White
    ensures |out| == |s|
    ensures forall i :: 0 <= i < |s| ==> out[i] == s[i].(kind := out[i].kind)
    ensures forall t :: 0 <= t < from ==> out[idxs[t]] == s[idxs[t]]
    ensures forall t :: from <= t < to ==> out[idxs[t]].kind == k
    ensures forall t :: to <= t < |idxs| ==> out[idxs[t]].kind == White
    ensures CountKind(out, k) == CountKind(s, k) + (to - from)
    ensures CountKind(out, White) == CountKind(s, White) - (to - from)
    ensures forall k' :: k' != k && k' != White ==> CountKind(out, k') == CountKind(s, k')
  {
    out := s;
    var t := from;
    while t < to
      invariant from <= t <= to && |out| == |s|
      invariant forall i :: 0 <= i < |s| ==> out[i] == s[i].(kind := out[i].kind)
      invariant forall u :: 0 <= u < from ==> out[idxs[u]] == s[idxs[u]]
      invariant forall u :: from <= u < t ==> out[idxs[u]].kind == k
      invariant forall u :: t <= u < |idxs| ==> out[idxs[u]] == s[idxs[u]]
      invariant CountKind(out, k) == CountKind(s, k) + (t - from)
      invariant CountKind(out, White) == CountKind(s, White) - (t - from)
      invariant forall k' :: k' != k && k' != White ==> CountKind(out, k') == CountKind(s, k')
    {
      var i := idxs[t];
      var f := out[i].(kind := k);
      forall k': Kind ensures CountKind(out[i := f], k') == CountKind(out, k') - (if out[i].kind == k' then 1 else 0) + (if k == k' then 1 else 0)
      {
        CountKindUpdate(out, i, f, k');
      }
      out := out[i := f];
      t := t + 1;
    }
  }

  /**
   * The two colouring loops of `buildQR`: the first YellowCount(n) shuffled
   * indices turn yellow, the next RedCount(n) turn red, the rest stay white.
   * Only kinds change.
   */
  method PaintKinds(foods: seq<Food>, idxs: seq<nat>) returns (out: seq<Food>)
    requires |idxs| == |foods| && Distinct(idxs)
    requires forall t :: 0 <= t < |idxs| ==> idxs[t] < |foods|
    requires forall i :: 0 <= i < |foods| ==> foods[i].kind == White
    ensures |out| == |foods|
    ensures forall i :: 0 <= i < |out| ==> out[i] == foods[i].(kind := out[i].kind)
    ensures forall t :: 0 <= t < YellowCount(|foods|) ==> out[idxs[t]].kind == Yellow
    ensures forall t :: YellowCount(|foods|) <= t < YellowCount(|foods|) + RedCount(|foods|) ==> out[idxs[t]].kind == Red
    ensures forall t :: YellowCount(|foods|) + RedCount(|foods|) <= t < |idxs| ==> out[idxs[t]].kind == White
    ensures CountKind(out, Yellow) == YellowCount(|foods|)
    ensures CountKind(out, Red) == RedCount(|foods|)
    ensures CountKind(out, White) == |foods| - YellowCount(|foods|) - RedCount(|foods|)
  {
    var n := |foods|;
    var y := YellowCount(n);
    var rc := RedCount(n);
    SpecialsFit(n);
    CountAllWhite(foods);
    var mid := PaintRun(foods, idxs, 0, y, Yellow);
    var last := if y + rc < n then y + rc else n;
    out := PaintRun(mid, idxs, y, last, Red);
  }

  /**
   * A freshly dealt board: one alive node per dark module in row-major
   * order; `idxs` orders the node indices without repeats, its first
   * YellowCount nodes are yellow, the next RedCount red and the rest white.
   */
  predicate Dealt(m: Grid, foods: seq<Food>, idxs: seq<nat>)
    requires IsSquare(m)
  {
    Placed(m, foods) && (forall i :: 0 <= i < |foods| ==> foods[i].alive)
    && |idxs| == |foods| && Distinct(idxs) && (forall t :: 0 <= t < |idxs| ==> idxs[t] < |foods|)
    && (forall t :: 0 <= t < |idxs| ==>
      foods[idxs[t]].kind == if t < YellowCount(|foods|) then Yellow
        else if t < YellowCount(|foods|) + RedCount(|foods|) then Red else White)
    && CountKind(foods, Yellow) == YellowCount(|foods|) && CountKind(foods, Red) == RedCount(|foods|)
    && CountKind(foods, White) == |foods| - YellowCount(|foods|) - RedCount(|foods|)
  }

  /**
   * The board half of `buildQR`: one alive node per dark module, then a
   * Fisher–Yates shuffle of the node indices (`idxs`) whose first
   * YellowCount nodes turn yellow and next RedCount red.
   */
  method NewBoard(m: Grid, shuffle: seq<real>) returns (foods: seq<Food>, idxs: seq<nat>)
    requires IsSquare(m)
    ensures Dealt(m, foods, idxs)
  {
    var nodes := BuildFoods(m);
    var count := |nodes|;
    var a := new nat[count](i => i);
    assert a[..] == Range(count);
    Shuffle(a, shuffle);
    idxs := a[..];
    forall t | 0 <= t < |idxs|
      ensures idxs[t] < count
    {
      assert idxs[t] in multiset(Range(count));
    }
    foods := PaintKinds(nodes, idxs);
  }

  /** The module a node is drawn in: row from y, column from x, after the engine's 1e-6 nudge. */
  function CellOf(v: real): int
  {
    (v - 0.5 + 0.000001).Floor
  }

  function NodeCell(f: Food): (int, int)
  {
    (CellOf(f.y), CellOf(f.x))
  }

  /** Cell (r, c) holds a node that is still alive. */
  predicate AliveAt(foods: seq<Food>, p: (int, int))
  {
    exists i :: 0 <= i < |foods| && foods[i].alive && NodeCell(foods[i]) == p
  }

  /** The alive-cell set of `scanCurrentQR`, gathered node by node. */
  method AliveCells(foods: seq<Food>) returns (cells: set<(int, int)>)
    ensures forall p :: p in cells <==> AliveAt(foods, p)
  {
    cells := {};
    var i := 0;
    while i < |foods|
      invariant 0 <= i <= |foods|
      invariant forall p :: p in cells <==> exists j :: 0 <= j < i && foods[j].alive && NodeCell(foods[j]) == p
    {
      if foods[i].alive {
        cells := cells + {NodeCell(foods[i])};
      }
      i := i + 1;
    }
  }

  /** Side of the scanned image in pixels: the board plus a two-module quiet zone each side, three pixels per module. */
  function ImageSide(n: nat): nat
  {
    (n + 2 * QUIET_ZONE) * PIXELS_PER_MODULE
  }

  /** Whether pixel (py, px) of the scanned image is black. */
  predicate Pixel(cells: set<(int, int)>, n: nat, py: nat, px: nat)
  {
    var r := py / PIXELS_PER_MODULE - QUIET_ZONE;
    var c := px / PIXELS_PER_MODULE - QUIET_ZONE;
    0 <= r < n && 0 <= c < n && (r, c) in cells
  }

  /** The image `scanCurrentQR` draws: white everywhere, a 3×3 black block per alive cell of the board. */
  function Raster(cells: set<(int, int)>, n: nat): (img: seq<seq<bool>>)
    ensures |img| == ImageSide(n)
    ensures forall py :: 0 <= py < |img| ==> |img[py]| == ImageSide(n)
    ensures forall py, px :: 0 <= py < |img| && 0 <= px < |img| ==> img[py][px] == Pixel(cells, n, py, px)
  {
    var w := ImageSide(n);
    seq(w, py requires 0 <= py < w => seq(w, px requires 0 <= px < w => Pixel(cells, n, py, px)))
  }

  /** The quiet zone of the image is white. */
  lemma QuietZoneWhite(cells: set<(int, int)>, n: nat, py: nat, px: nat)
    requires py < ImageSide(n) && px < ImageSide(n)
    requires py < QUIET_ZONE * PIXELS_PER_MODULE || px < QUIET_ZONE * PIXELS_PER_MODULE
          || py >= (n + QUIET_ZONE) * PIXELS_PER_MODULE || px >= (n + QUIET_ZONE) * PIXELS_PER_MODULE
    ensures !Raster(cells, n)[py][px]
  {
  }

  /** Each pixel of module (r, c)'s 3×3 block shows whether that module is alive. */
  lemma RasterBlock(cells: set<(int, int)>, n: nat, r: nat, c: nat, dy: nat, dx: nat)
    requires r < n && c < n && dy < PIXELS_PER_MODULE && dx < PIXELS_PER_MODULE
    ensures var py := (QUIET_ZONE + r) * PIXELS_PER_MODULE + dy;
      var px := (QUIET_ZONE + c) * PIXELS_PER_MODULE + dx;
      py < ImageSide(n) && px < ImageSide(n) && (Raster(cells, n)[py][px] <==> (r, c) in cells)
  {
    var py := (QUIET_ZONE + r) * PIXELS_PER_MODULE + dy;
    var px := (QUIET_ZONE + c) * PIXELS_PER_MODULE + dx;
    assert py / PIXELS_PER_MODULE == QUIET_ZONE + r;
    assert px / PIXELS_PER_MODULE == QUIET_ZONE + c;
  }

  /** A node placed at the centre of cell (r, c) is drawn in cell (r, c). */
  lemma NodeCellOfCentre(p: (nat, nat))
    ensures NodeCell(NodeAt(p)) == (p.0 as int, p.1 as int)
  {
  }

  /** On a freshly placed board every alive cell is a dark module of the symbol... */
  lemma PlacedAliveIsDark(m: Grid, foods: seq<Food>, p: (int, int))
    requires IsSquare(m) && Placed(m, foods) && AliveAt(foods, p)
    ensures 0 <= p.0 < |m| && 0 <= p.1 < |m| && m[p.0][p.1]
  {
    var cs := DarkCells(m);
    var i :| 0 <= i < |foods| && foods[i].alive && NodeCell(foods[i]) == p;
    NodeCellOfCentre(cs[i]);
    CellsSound(m, |m|, 0);
    assert cs[i] in cs;
  }

  /** ... and every dark module is an alive cell. */
  lemma PlacedDarkIsAlive(m: Grid, foods: seq<Food>, r: nat, c: nat)
    requires IsSquare(m) && Placed(m, foods)
    requires r < |m| && c < |m| && m[r][c]
    ensures AliveAt(foods, (r, c))
  {
    var cs := DarkCells(m);
    CellsComplete(m, |m|, 0, r, c);
    var i :| 0 <= i < |cs| && cs[i] == (r, c);
    NodeCellOfCentre(cs[i]);
    assert foods[i].alive && NodeCell(foods[i]) == (r, c);
  }

  /** Whether module (r, c) of an n×n board is inside the board and holds an alive node. */
  predicate AliveModule(foods: seq<Food>, n: nat, r: int, c: int)
  {
    0 <= r < n && 0 <= c < n && AliveAt(foods, (r, c))
  }

  /** img is the scanned image of the board: a quiet zone, then one 3×3 black block per module holding an alive node. */
  predicate ShowsAlive(img: seq<seq<bool>>, foods: seq<Food>, n: nat)
  {
    |img| == ImageSide(n)
    && (forall py :: 0 <= py < |img| ==> |img[py]| == ImageSide(n))
    && forall py, px :: 0 <= py < |img| && 0 <= px < |img| ==>
      (img[py][px] <==> AliveModule(foods, n, py / PIXELS_PER_MODULE - QUIET_ZONE, px / PIXELS_PER_MODULE - QUIET_ZONE))
  }

  /** On a freshly placed board the scanned image is exactly the symbol inside its quiet zone. */
  lemma PlacedImageIsSymbol(m: Grid, foods: seq<Food>, img: seq<seq<bool>>, py: nat, px: nat)
    requires IsSquare(m) && Placed(m, foods) && ShowsAlive(img, foods, |m|)
    requires py < |img| && px < |img|
    ensures var r := py / PIXELS_PER_MODULE - QUIET_ZONE;
      var c := px / PIXELS_PER_MODULE - QUIET_ZONE;
      img[py][px] <==> 0 <= r < |m| && 0 <= c < |m| && m[r][c]
  {
    var r := py / PIXELS_PER_MODULE - QUIET_ZONE;
    var c := px / PIXELS_PER_MODULE - QUIET_ZONE;
    if 0 <= r < |m| && 0 <= c < |m| {
      if m[r][c] {
        PlacedDarkIsAlive(m, foods, r, c);
      }
      if AliveAt(foods, (r, c)) {
        PlacedAliveIsDark(m, foods, (r, c));
      }
    }
  }

  /** Killing nodes can only turn black pixels of the scanned image white, never the reverse. */
  lemma KillingOnlyWhitensImage(before: seq<Food>, after: seq<Food>, n: nat, imgB: seq<seq<bool>>, imgA: seq<seq<bool>>, py: nat, px: nat)
    requires OnlyKilled(before, after) && ShowsAlive(imgB, before, n) && ShowsAlive(imgA, after, n)
    requires py < |imgA| && px < |imgA|
    ensures imgA[py][px] ==> imgB[py][px]
  {
    KillingOnlyWhitens(before, after, (py / PIXELS_PER_MODULE - QUIET_ZONE, px / PIXELS_PER_MODULE - QUIET_ZONE));
  }

  /** Nodes only ever die in place: same count, same centres and kinds may change, and none comes back to life. */
  predicate OnlyKilled(before: seq<Food>, after: seq<Food>)
  {
    |after| == |before|
    && forall i :: 0 <= i < |before| ==>
      after[i].x == before[i].x && after[i].y == before[i].y && (after[i].alive ==> before[i].alive)
  }

  /** Killing nodes can only whiten the scanned image. */
  lemma KillingOnlyWhitens(before: seq<Food>, after: seq<Food>, p: (int, int))
    requires OnlyKilled(before, after)
    ensures AliveAt(after, p) ==> AliveAt(before, p)
  {
    if AliveAt(after, p) {
      var i :| 0 <= i < |after| && after[i].alive && NodeCell(after[i]) == p;
      assert before[i].alive && NodeCell(before[i]) == p;
    }
  }
}
