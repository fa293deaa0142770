// The character graph drawn from a history: src/graph.c.
module Graph {
  import opened Options
  import opened History
  import CStrings
  import Ledger

  // struct graph_cfg without the unit
  datatype Config = Config(height: nat, width: nat, background: char, foreground: char, noise: char, unknown: char)

  const NUL := '\0'

  // ---- positions ----

  function RowSize(width: nat): nat {
    width + 1 // and the terminator
  }

  function TableSize(c: Config): nat {
    c.height * RowSize(c.width)
  }

  // tbl_pos
  function Pos(width: nat, row: nat, col: nat): nat {
    col + row * RowSize(width)
  }

  lemma PosInside(c: Config, row: nat, col: nat)
    requires row < c.height && col <= c.width
    ensures Pos(c.width, row, col) < TableSize(c)
  {
    var size := RowSize(c.width);
    assert (row + 1) * size <= c.height * size;
    assert (row + 1) * size == row * size + size;
  }

  lemma PosDistinct(width: nat, row: nat, col: nat, row': nat, col': nat)
    requires col <= width && col' <= width
    ensures Pos(width, row, col) == Pos(width, row', col') <==> row == row' && col == col'
  {
    var size := RowSize(width);
    assert row < row' ==> row' * size >= (row + 1) * size == row * size + size;
    assert row' < row ==> row * size >= (row' + 1) * size == row' * size + size;
  }

  ghost function At(table: seq<char>, width: nat, row: nat, col: nat): char {
    if Pos(width, row, col) < |table| then table[Pos(width, row, col)] else NUL
  }

  // ---- what a column shows ----

  // The height of the bar of a known value: its share of the peak, in rows, rounded half up.
  ghost function Bar(v: nat, peak: nat, height: nat): int
    requires peak > 0
  {
    RoundHalfUp((v * height) as real / peak as real)
  }

  ghost function Shown(c: Config, v: nat, peak: nat, row: nat): char {
    if v == UNKNOWN then c.unknown
    else if peak > 0 && row < Bar(v, peak, c.height) then c.foreground
    else if v > 0 && row == 0 then c.noise
    else c.background
  }

  // The values of the columns, newest first.
  ghost function Visible(slots: seq<nat>, w: Width, width: nat): (r: seq<nat>)
    ensures |r| == width
  {
    seq(width, i requires i >= 0 => Decode(Newest(slots, i), w))
  }

  ghost function Peak(values: seq<nat>): nat {
    if values == [] then 0
    else
      var rest, v := Peak(values[..|values| - 1]), values[|values| - 1];
      if v != UNKNOWN && rest < v then v else rest
  }

  // The peak is the largest known value.
  lemma {:induction false} PeakIsMax(values: seq<nat>)
    ensures forall i :: 0 <= i < |values| && values[i] != UNKNOWN ==> values[i] <= Peak(values)
    ensures Peak(values) > 0 ==> Peak(values) in values && Peak(values) != UNKNOWN
  {
    if values != [] {
      PeakIsMax(values[..|values| - 1]);
    }
  }

  // The comparison the drawing loop makes, against the middle of the step of a row.
  ghost predicate Reaches(v: nat, peak: nat, height: nat, row: nat)
    requires height > 0
  {
    var step := peak as real / height as real;
    v as real >= (row + 1) as real * step - step / 2.0
  }

  // The rows a value reaches are those below its rounded share.
  lemma ReachesIff(v: nat, peak: nat, height: nat, row: nat)
    requires height > 0 && peak > 0
    ensures Reaches(v, peak, height, row) <==> row < Bar(v, peak, height)
  {
    var step := peak as real / height as real;
    var q := (v * height) as real / peak as real;
    ShareInSteps(v, peak, height, step, q);
    var r := q - (row as real + 0.5);
    SignTimes(r, step);
    assert r * step == q * step - (row + 1) as real * step + step / 2.0;
    assert row < (q + 0.5).Floor <==> r >= 0.0;
  }

  lemma ShareInSteps(v: nat, peak: nat, height: nat, step: real, q: real)
    requires height > 0 && peak > 0
    requires step == peak as real / height as real && q == (v * height) as real / peak as real
    ensures step > 0.0 && q * step == v as real
  {
    var h, p, x := height as real, peak as real, v as real;
    assert step * h == p && q * p == x * h;
    assert (q * step) * h == x * h;
    SignTimes(step, h);
    assert (q * step - x) * h == 0.0;
  }

  // A taller value never has a lower bar; the peak fills its column; no bar is higher than the graph.
  lemma BarFacts(v: nat, v': nat, peak: nat, height: nat)
    requires 0 < peak && v <= v' <= peak && height > 0
    ensures 0 <= Bar(v, peak, height) <= Bar(v', peak, height) <= height
    ensures Bar(peak, peak, height) == height
  {
    Share(v, v', peak, height);
    Share(v', peak, peak, height);
    Share(0, v, peak, height);
    PeakBar(peak, height);
  }

  lemma PeakBar(peak: nat, height: nat)
    requires peak > 0 && height > 0
    ensures Bar(peak, peak, height) == height
  {
    var x := peak * height;
    RealProduct(peak, height, x);
    WholeShare(x as real, peak as real, height as real, x as real / peak as real);
  }

  lemma RealProduct(a: int, b: int, x: int)
    requires x == a * b
    ensures x as real == a as real * b as real
  {
  }

  // All of the peak is the whole height.
  lemma WholeShare(x: real, p: real, h: real, q: real)
    requires p > 0.0 && x == p * h && q == x / p
    ensures q == h
  {
    assert q * p == x;
    SignTimes(q - h, p);
    assert (q - h) * p == 0.0;
  }

  lemma Share(v: nat, v': nat, peak: nat, height: nat)
    requires v <= v' && peak > 0
    ensures (v * height) as real / peak as real <= (v' * height) as real / peak as real
  {
    assert v * height <= v' * height;
    var p, x, y := peak as real, (v * height) as real / peak as real, (v' * height) as real / peak as real;
    SignTimes(y - x, p);
    assert (y - x) * p == (v' * height) as real - (v * height) as real;
  }

  lemma BarZeroIff(v: nat, peak: nat, height: nat)
    requires v <= peak && peak > 0 && height > 0
    ensures Bar(v, peak, height) == 0 <==> 2 * (v * height) < peak
  {
    BarFacts(v, v, peak, height);
    HalfRow(v * height, peak, (v * height) as real / peak as real);
  }

  lemma HalfRow(x: nat, p: nat, q: real)
    requires p > 0 && q == x as real / p as real
    ensures q < 0.5 <==> 2 * x < p
  {
    var r, d := q - 0.5, p as real;
    assert q * d == x as real;
    SignTimes(r, d);
    assert r * d == x as real - d / 2.0;
  }

  // A positive value below half a row shows as the noise mark and nothing else; any other positive
  // value shows no noise mark.
  lemma NoiseOnlyIff(c: Config, v: nat, peak: nat)
    requires 0 < v <= peak && v != UNKNOWN && c.height > 0
    requires c.foreground != c.noise && c.foreground != c.background
    ensures (forall row :: 0 <= row < c.height ==> Shown(c, v, peak, row) != c.foreground) <==>
            2 * (v * c.height) < peak
    ensures Shown(c, v, peak, 0) == if 2 * (v * c.height) < peak then c.noise else c.foreground
  {
    BarFacts(v, v, peak, c.height);
    BarZeroIff(v, peak, c.height);
    assert Shown(c, v, peak, 0) == if 2 * (v * c.height) < peak then c.noise else c.foreground;
  }

  // ---- drawing ----

  // struct graph_table
  class GraphTable {
    var table: array?<char>  // gt_table
    var scale: array?<real>  // gt_scale
    var yUnit: string        // gt_y_unit

    constructor ()
      ensures table == null && scale == null
    {
      table, scale, yUnit := null, null, "";
    }

    ghost predicate Fits(c: Config)
      reads this
    {
      && (table == null <==> scale == null)
      && (table != null ==> table.Length == TableSize(c) && scale.Length == c.height)
    }
  }

  // Every row is closed by its terminator.
  ghost predicate Terminated(t: seq<char>, c: Config) {
    |t| == TableSize(c) && forall row :: 0 <= row < c.height ==> At(t, c.width, row, c.width) == NUL
  }

  // Columns below n show their values, the others are blank.
  ghost predicate Drawn(t: seq<char>, c: Config, values: seq<nat>, n: nat) {
    && Terminated(t, c) && n <= c.width == |values|
    && forall row, col :: 0 <= row < c.height && 0 <= col < c.width ==>
         At(t, c.width, row, col) == if col < n then Shown(c, values[col], Peak(values), row) else c.background
  }

  // What unit_divisor gives for a value: what to divide by, and the name of the unit then.
  type Divisor = d: real | d > 0.0 witness 1.0

  datatype Scaling = Scaling(divisor: Divisor, name: string)

  // The top of a row.
  ghost function Step(peak: nat, height: nat, row: nat): real
    requires height > 0
  {
    (row + 1) as real * (peak as real / height as real)
  }

  ghost predicate Steps(scale: seq<real>, peak: nat) {
    forall t :: 0 <= t < |scale| ==> scale[t] == Step(peak, |scale|, t)
  }

  // The scale as it is left: in the unit that suits the row at two thirds of the height.
  ghost predicate Scaled(scale: seq<real>, name: string, peak: nat, unit: real -> Scaling)
    requires |scale| > 0
  {
    var scaling := unit(Step(peak, |scale|, |scale| / 3 * 2));
    && name == scaling.name
    && forall t :: 0 <= t < |scale| ==> scale[t] == Step(peak, |scale|, t) / scaling.divisor
  }

  // ---- what a finished table shows, written out ----

  // A cell of the column for the col-th newest slot. An unknown value fills its column, none leaves it blank,
  // and any other value reaches the rows whose middle is not above its share of the peak.
  lemma CellShows(t: seq<char>, c: Config, slots: seq<nat>, w: Width, row: nat, col: nat)
    requires Drawn(t, c, Visible(slots, w, c.width), c.width) && row < c.height && col < c.width
    ensures
      var cell, v, peak := At(t, c.width, row, col), Decode(Newest(slots, col), w), Peak(Visible(slots, w, c.width));
      && (v == UNKNOWN ==> cell == c.unknown)
      && (v == 0 ==> cell == c.background)
      && (v != UNKNOWN && v > 0 ==>
            v <= peak &&
            cell == if 2 * (v * c.height) >= (2 * row + 1) * peak then c.foreground
                    else if row == 0 then c.noise else c.background)
  {
    var values := Visible(slots, w, c.width);
    var v, peak := values[col], Peak(values);
    PeakIsMax(values);
    if v != UNKNOWN && v > 0 { RowReached(v, peak, c.height, row); }
    if v == 0 && peak > 0 { RowReached(v, peak, c.height, row); }
  }

  lemma AllCells(t: seq<char>, c: Config, slots: seq<nat>, w: Width)
    requires Drawn(t, c, Visible(slots, w, c.width), c.width)
    ensures forall row, col :: 0 <= row < c.height && 0 <= col < c.width ==>
              var v := Decode(Newest(slots, col), w);
              && (v == UNKNOWN ==> At(t, c.width, row, col) == c.unknown)
              && (v == 0 ==> At(t, c.width, row, col) == c.background)
  {
    forall row, col | 0 <= row < c.height && 0 <= col < c.width
      ensures
        var v := Decode(Newest(slots, col), w);
        && (v == UNKNOWN ==> At(t, c.width, row, col) == c.unknown)
        && (v == 0 ==> At(t, c.width, row, col) == c.background)
    {
      CellShows(t, c, slots, w, row, col);
    }
  }

  lemma RowReached(v: nat, peak: nat, height: nat, row: nat)
    requires peak > 0
    ensures row < Bar(v, peak, height) <==> 2 * (v * height) >= (2 * row + 1) * peak
  {
    var x, odd := v * height, (2 * row + 1) * peak;
    RealProduct(2 * row + 1, peak, odd);
    HalfShare(x as real, peak as real, x as real / peak as real, row as real, odd as real);
  }

  lemma HalfShare(x: real, p: real, q: real, r: real, odd: real)
    requires p > 0.0 && q == x / p && odd == (2.0 * r + 1.0) * p
    ensures q + 0.5 >= r + 1.0 <==> 2.0 * x >= odd
  {
    var d := q - r - 0.5;
    assert q * p == x;
    SignTimes(d, p);
    assert d * p == q * p - r * p - 0.5 * p;
  }

  // The mark for unknown values stands in a cell if and only if its value is unknown.
  lemma UnknownIff(t: seq<char>, c: Config, slots: seq<nat>, w: Width, row: nat, col: nat)
    requires Drawn(t, c, Visible(slots, w, c.width), c.width) && row < c.height && col < c.width
    requires c.unknown != c.background && c.unknown != c.foreground && c.unknown != c.noise
    ensures At(t, c.width, row, col) == c.unknown <==> Decode(Newest(slots, col), w) == UNKNOWN
  {
    CellShows(t, c, slots, w, row, col);
  }

  // So after a gap of k slots in a history that holds values, the k newest columns are filled with that mark.
  lemma GapFills(t: seq<char>, c: Config, s: StoreState, k: nat, total: nat, w: Width, row: nat, col: nat)
    requires s.present && col < k && row < c.height && col < c.width
    requires Drawn(t, c, Visible(PassedOver(s, k, total, w).slots, w, c.width), c.width)
    ensures At(t, c.width, row, col) == c.unknown
  {
    Ledger.GapReads(s, k, total, w, col);
    CellShows(t, c, PassedOver(s, k, total, w).slots, w, row, col);
  }

  // Each row is a C string of its own in the table, as long as the graph is wide.
  lemma RowReads(t: seq<char>, c: Config, row: nat)
    requires Terminated(t, c) && row < c.height
    requires forall col :: 0 <= col < c.width ==> At(t, c.width, row, col) != NUL
    ensures CStrings.Shows(t, row * (c.width + 1), seq(c.width, col requires col >= 0 => At(t, c.width, row, col)))
  {
    var from, text := row * (c.width + 1), seq(c.width, col requires col >= 0 => At(t, c.width, row, col));
    PosInside(c, row, c.width);
    forall col | 0 <= col < c.width
      ensures t[from + col] == text[col] && text[col] != NUL
    {
      PosInside(c, row, col);
      assert text[col] == At(t, c.width, row, col);
    }
    assert t[from..from + c.width] == text;
    assert Pos(c.width, row, c.width) == from + c.width;
    assert At(t, c.width, row, c.width) == t[from + c.width] == '\0';
    assert forall x :: x in text ==> x != '\0';
  }

  // The scale times the divisor of its unit goes up to the peak in equal steps. The unit is the one for the
  // row above two thirds of the height.
  lemma ScaleSteps(scale: seq<real>, name: string, peak: nat, unit: real -> Scaling, v: real, t: nat)
    requires |scale| > 0 && Scaled(scale, name, peak, unit) && t < |scale|
    requires v * |scale| as real == (|scale| / 3 * 2 + 1) as real * peak as real
    ensures name == unit(v).name
    ensures scale[t] * unit(v).divisor * |scale| as real == (t + 1) as real * peak as real
    ensures t == |scale| - 1 ==> scale[t] * unit(v).divisor == peak as real
  {
    var n, d := |scale| as real, unit(v).divisor;
    var two := |scale| / 3 * 2;
    StepTimes(peak as real, n, (two + 1) as real, Step(peak, |scale|, two));
    SameQuotient(v, Step(peak, |scale|, two), n);
    var top := Step(peak, |scale|, t);
    StepTimes(peak as real, n, (t + 1) as real, top);
    assert scale[t] * d == top;
    if t == |scale| - 1 { SameQuotient(top, peak as real, n); }
  }

  lemma StepTimes(p: real, n: real, k: real, s: real)
    requires n > 0.0 && s == k * (p / n)
    ensures s * n == k * p
  {
    var q := p / n;
    assert q * n == p;
    assert k * q * n == k * (q * n);
  }

  lemma SameQuotient(a: real, b: real, n: real)
    requires n > 0.0 && a * n == b * n
    ensures a == b
  {
    SignTimes(a - b, n);
    SignTimes(b - a, n);
    assert (a - b) * n == 0.0 && (b - a) * n == 0.0;
  }

  // One write into the table.
  method Put(a: array<char>, c: Config, row: nat, col: nat, mark: char)
    requires a.Length == TableSize(c) && row < c.height && col <= c.width
    modifies a
    ensures At(a[..], c.width, row, col) == mark
    ensures forall row', col' :: 0 <= row' && 0 <= col' <= c.width && (row' != row || col' != col) ==>
              At(a[..], c.width, row', col') == old(At(a[..], c.width, row', col'))
  {
    PosInside(c, row, col);
    a[Pos(c.width, row, col)] := mark;
    forall row', col' | 0 <= row' && 0 <= col' <= c.width && (row' != row || col' != col)
      ensures At(a[..], c.width, row', col') == old(At(a[..], c.width, row', col'))
    {
      PosDistinct(c.width, row, col, row', col');
    }
  }

  // The table without any column drawn.
  method Blank(a: array<char>, c: Config)
    requires a.Length == TableSize(c)
    modifies a
    ensures Terminated(a[..], c)
    ensures forall row, col :: 0 <= row < c.height && 0 <= col < c.width ==>
              At(a[..], c.width, row, col) == c.background
  {
    for i := 0 to a.Length
      invariant forall k :: 0 <= k < i ==> a[k] == c.background
    {
      a[i] := c.background;
    }
    forall row, col | 0 <= row < c.height && 0 <= col < c.width
      ensures At(a[..], c.width, row, col) == c.background
    {
      PosInside(c, row, col);
    }
    for i := 0 to c.height
      invariant forall row :: 0 <= row < i ==> At(a[..], c.width, row, c.width) == NUL
      invariant forall row, col :: 0 <= row < c.height && 0 <= col < c.width ==>
                  At(a[..], c.width, row, col) == c.background
    {
      Put(a, c, i, c.width, NUL);
    }
  }

  // One column; the scale holds the top of each row.
  method DrawColumn(a: array<char>, scale: array<real>, c: Config, col: nat, v: nat, peak: nat)
    requires a.Length == TableSize(c) && col < c.width && c.height > 0
    requires v == UNKNOWN || v <= peak
    requires scale.Length == c.height && Steps(scale[..], peak)
    requires forall row :: 0 <= row < c.height ==> At(a[..], c.width, row, col) == c.background
    modifies a
    ensures forall row :: 0 <= row < c.height ==> At(a[..], c.width, row, col) == Shown(c, v, peak, row)
    ensures forall row, col' :: 0 <= row < c.height && 0 <= col' <= c.width && col' != col ==>
              At(a[..], c.width, row, col') == old(At(a[..], c.width, row, col'))
  {
    var halfStep := peak as real / c.height as real / 2.0;
    if v == UNKNOWN {
      for t := 0 to c.height
        invariant forall row :: 0 <= row < t ==> At(a[..], c.width, row, col) == c.unknown
        invariant forall row, col' :: 0 <= row < c.height && 0 <= col' <= c.width && col' != col ==>
                    At(a[..], c.width, row, col') == old(At(a[..], c.width, row, col'))
      {
        Put(a, c, t, col, c.unknown);
      }
    } else if v > 0 {
      Put(a, c, 0, col, c.noise);
      for t := 0 to c.height
        invariant forall row :: 0 <= row < t ==> At(a[..], c.width, row, col) == Shown(c, v, peak, row)
        invariant forall row :: t <= row < c.height ==>
                    At(a[..], c.width, row, col) == if row == 0 then c.noise else c.background
        invariant forall row, col' :: 0 <= row < c.height && 0 <= col' <= c.width && col' != col ==>
                    At(a[..], c.width, row, col') == old(At(a[..], c.width, row, col'))
      {
        ReachesIff(v, peak, c.height, t);
        assert scale[..][t] == Step(peak, c.height, t);
        if v as real >= scale[t] - halfStep {
          Put(a, c, t, col, c.foreground);
        }
      }
    }
  }

  // A backward walk from index stands at n after i steps.
  ghost predicate Walked(n: nat, index: nat, size: nat, i: nat) {
    index < size && n < size && n == if i == 0 || i > size then index else Back(index, i - 1, size)
  }

  // One step back through the ring, and the value found there.
  method ReadBack(h: Ring, data: HistoryStore, n: nat, ghost i: nat) returns (m: nat, v: nat)
    requires data.data != null && data.Ok(h.index, h.setting.def.size)
    requires i < h.setting.def.size && Walked(n, h.index, h.setting.def.size, i)
    ensures Walked(m, h.index, h.setting.def.size, i + 1)
    ensures v == Decode(Newest(data.slots, i), h.setting.def.width)
  {
    var k: int := n - 1;
    if k < 0 { k := h.setting.def.size - 1; }
    m := k;
    assert m == Back(h.index, i, h.setting.def.size);
    v := h.Data(data, m);
  }

  // The largest known value of the visible slots.
  method FindPeak(h: Ring, data: HistoryStore, width: nat) returns (peak: nat)
    requires data.data != null && data.Ok(h.index, h.setting.def.size) && width <= h.setting.def.size
    ensures peak == Peak(Visible(data.slots, h.setting.def.width, width))
  {
    ghost var values := Visible(data.slots, h.setting.def.width, width);
    peak := 0;
    var n := h.index;
    for i := 0 to width
      invariant data.Ok(h.index, h.setting.def.size) && Walked(n, h.index, h.setting.def.size, i)
      invariant peak == Peak(values[..i])
    {
      var v;
      n, v := ReadBack(h, data, n, i);
      assert values[..i + 1][..i] == values[..i] && values[..i + 1][i] == v;
      if v != UNKNOWN && peak < v {
        peak := v;
      }
    }
    assert values[..width] == values;
  }

  lemma DrawnOne(t: seq<char>, t': seq<char>, c: Config, values: seq<nat>, n: nat)
    requires Drawn(t, c, values, n) && n < c.width && |t'| == |t|
    requires forall row :: 0 <= row < c.height ==> At(t', c.width, row, n) == Shown(c, values[n], Peak(values), row)
    requires forall row, col :: 0 <= row < c.height && 0 <= col <= c.width && col != n ==>
               At(t', c.width, row, col) == At(t, c.width, row, col)
    ensures Drawn(t', c, values, n + 1)
  {
  }

  // The columns, from the newest slot backwards.
  method DrawColumns(a: array<char>, scale: array<real>, c: Config, h: Ring, data: HistoryStore, peak: nat)
    requires data.data != null && data.Ok(h.index, h.setting.def.size) && c.width <= h.setting.def.size
    requires a.Length == TableSize(c) && scale.Length == c.height > 0
    requires Steps(scale[..], peak)
    requires peak == Peak(Visible(data.slots, h.setting.def.width, c.width))
    requires Drawn(a[..], c, Visible(data.slots, h.setting.def.width, c.width), 0)
    modifies a
    ensures Drawn(a[..], c, Visible(data.slots, h.setting.def.width, c.width), c.width)
  {
    ghost var values := Visible(data.slots, h.setting.def.width, c.width);
    PeakIsMax(values);
    var n := h.index;
    for i := 0 to c.width
      invariant data.Ok(h.index, h.setting.def.size) && Walked(n, h.index, h.setting.def.size, i)
      invariant Drawn(a[..], c, values, i) && Steps(scale[..], peak)
    {
      var v;
      n, v := ReadBack(h, data, n, i);
      assert v == values[i];
      ghost var t := a[..];
      DrawColumn(a, scale, c, i, v, peak);
      DrawnOne(t, a[..], c, values, i);
    }
  }

  // The tops of the rows.
  method FillScale(scale: array<real>, peak: nat)
    requires scale.Length > 0
    modifies scale
    ensures Steps(scale[..], peak)
  {
    var step := peak as real / scale.Length as real;
    for i := 0 to scale.Length
      invariant forall t :: 0 <= t < i ==> scale[t] == Step(peak, scale.Length, t)
    {
      scale[i] := (i + 1) as real * step;
    }
  }

  // The same, divided by what the unit asks for.
  method ScaleDown(scale: array<real>, unit: real -> Scaling) returns (name: string)
    requires scale.Length > 0
    modifies scale
    ensures var scaling := unit(old(scale[scale.Length / 3 * 2]));
      && name == scaling.name
      && forall t :: 0 <= t < scale.Length ==> scale[t] == old(scale[t]) / scaling.divisor
  {
    var n := scale.Length / 3 * 2;  // always below the height, so that no guard is needed
    var scaling := unit(scale[n]);
    for i := 0 to scale.Length
      invariant forall t :: 0 <= t < i ==> scale[t] == old(scale[t]) / scaling.divisor
      invariant forall t :: i <= t < scale.Length ==> scale[t] == old(scale[t])
    {
      scale[i] := scale[i] / scaling.divisor;
    }
    name := scaling.name;
  }

  // The part of fill_table behind its checks.
  method DrawGraph(c: Config, tbl: GraphTable, h: Ring, data: HistoryStore, unit: real -> Scaling)
    requires c.height > 0 && tbl.Fits(c) && tbl.table != null
    requires h.Valid() && (data == h.rx || data == h.tx) && data.data != null && c.width <= h.setting.def.size
    requires Drawn(tbl.table[..], c, Visible(data.slots, h.setting.def.width, c.width), 0)
    modifies tbl`yUnit, tbl.table, tbl.scale
    ensures
      var values := Visible(data.slots, h.setting.def.width, c.width);
      && Drawn(tbl.table[..], c, values, c.width)
      && Scaled(tbl.scale[..], tbl.yUnit, Peak(values), unit)
  {
    var peak := FindPeak(h, data, c.width);
    FillScale(tbl.scale, peak);
    DrawColumns(tbl.table, tbl.scale, c, h, data, peak);
    tbl.yUnit := ScaleDown(tbl.scale, unit);
  }

  // fill_table; the result tells that it ended in BUG().
  method FillTable(c: Config, tbl: GraphTable, h: Ring?, data: HistoryStore?, unit: real -> Scaling)
    returns (bug: bool)
    requires c.height > 0 && tbl.Fits(c)
    requires h != null ==> h.Valid() && (data == h.rx || data == h.tx)
    modifies tbl, tbl.table, tbl.scale
    ensures tbl.Fits(c) && tbl.table != null && Terminated(tbl.table[..], c)
    ensures old(tbl.table) != null ==> tbl.table == old(tbl.table) && tbl.scale == old(tbl.scale)
    ensures old(tbl.table) == null ==> fresh(tbl.table) && fresh(tbl.scale)
    ensures bug <==> h != null && data.data != null && c.width > h.setting.def.size
    ensures h == null || data.data == null || bug ==>
              forall row, col :: 0 <= row < c.height && 0 <= col < c.width ==>
                At(tbl.table[..], c.width, row, col) == c.background
    ensures h == null || data.data == null || bug ==>
              && tbl.yUnit == old(tbl.yUnit)
              && (old(tbl.scale) != null ==> tbl.scale[..] == old(tbl.scale[..]))
    ensures h != null && data.data != null && !bug ==>
              var values := Visible(data.slots, h.setting.def.width, c.width);
              && Drawn(tbl.table[..], c, values, c.width)
              && Scaled(tbl.scale[..], tbl.yUnit, Peak(values), unit)
    // the column of an unknown value is filled, that of none is blank
    ensures h != null && data.data != null && !bug ==>
              forall row, col :: 0 <= row < c.height && 0 <= col < c.width ==>
                var v := Decode(Newest(data.slots, col), h.setting.def.width);
                && (v == UNKNOWN ==> At(tbl.table[..], c.width, row, col) == c.unknown)
                && (v == 0 ==> At(tbl.table[..], c.width, row, col) == c.background)
  {
    if tbl.table == null {
      tbl.table := new char[TableSize(c)](_ => NUL);
      tbl.scale := new real[c.height](_ => 0.0);
    }
    Blank(tbl.table, c);
    if h == null || data.data == null {
      return false;
    }
    if c.width > h.setting.def.size {
      return true;
    }
    DrawGraph(c, tbl, h, data, unit);
    AllCells(tbl.table[..], c, data.slots, h.setting.def.width);
    bug := false;
  }

  // struct graph
  class CharGraph {
    const cfg: Config
    const rx: GraphTable
    const tx: GraphTable

    constructor (c: Config)
      ensures cfg == c && fresh(rx) && fresh(tx) && rx != tx
      ensures rx.table == null && rx.scale == null && tx.table == null && tx.scale == null
    {
      cfg := c;
      rx := new GraphTable();
      tx := new GraphTable();
    }
  }

  // graph_alloc; None stands for BUG(). The graph is never wider than the history, so that filling it
  // from that history cannot fail.
  method GraphAlloc(h: Ring?, c: Config) returns (g: Option<CharGraph>)
    requires h != null ==> h.setting.def.size > 0
    ensures g.None? <==> c.height == 0 || (h == null && c.width == 0)
    ensures g.Some? ==>
              var size := if h == null then c.width else h.setting.def.size;
              && g.value.cfg == c.(width := g.value.cfg.width)
              && 0 < g.value.cfg.width <= size && g.value.cfg.height > 0
              && g.value.cfg.width == (if 0 < c.width <= size then c.width else size)
              && g.value.rx.Fits(g.value.cfg) && g.value.tx.Fits(g.value.cfg)
  {
    if c.height == 0 {
      return None;
    }
    var cfg := c;
    if h != null && (c.width > h.setting.def.size || c.width == 0) {
      cfg := cfg.(width := h.setting.def.size);
    }
    if cfg.width == 0 {
      return None;
    }
    var graph := new CharGraph(cfg);
    g := Some(graph);
  }
}
