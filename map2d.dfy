/** `Map2D<T>`: a rectangular, mutable grid of optional cells addressed by (x, y), stored as a
    list of row arrays of one fixed width; plus the text reader and renderer around it. */
module Grid {
  import opened Results
  import Text

  datatype Point = Point(x: int, y: int)

  /** A coordinate with the value observed there during enumeration. */
  datatype MapPoint<T> = MapPoint(value: Option<T>, location: Point)

  /** A row of `width` empty cells: what `new T?[width]` holds. */
  function Blank<T>(width: nat): (row: seq<Option<T>>)
    ensures |row| == width
    ensures forall x :: 0 <= x < width ==> row[x].None?
  {
    seq(width, _ => None)
  }

  /** Whether a merge copies the source value `v`: it must pass the mask (when there is one)
      and be present unless null values are included. */
  function Keeps<T(==)>(v: Option<T>, mask: Option<seq<Option<T>>>, includeNulls: bool): (keep: bool)
    ensures mask.None? && includeNulls ==> keep
    ensures mask == Some([]) ==> !keep
  {
    (mask.None? || v in mask.value) && (includeNulls || v.Some?)
  }

  ghost predicate Rectangular<T>(cells: seq<seq<Option<T>>>, width: nat)
  {
    forall y :: 0 <= y < |cells| ==> |cells[y]| == width
  }

  function Max(a: int, b: int): int
  {
    if a < b then b else a
  }

  /** The base layer a merge starts from: the other grid's rows cut to width `w`, then empty rows. */
  function BaseCell<T>(base: seq<seq<Option<T>>>, x: nat, y: nat): Option<T>
    requires y < |base| ==> x < |base[y]|
  {
    if y < |base| then base[y][x] else None
  }

  function MergedCell<T(==)>(src: seq<seq<Option<T>>>, base: seq<seq<Option<T>>>, x: nat, y: nat, h: nat,
                             mask: Option<seq<Option<T>>>, includeNulls: bool): Option<T>
    requires y < h ==> y < |src| && x < |src[y]|
    requires y < |base| ==> x < |base[y]|
  {
    if y < h && Keeps(src[y][x], mask, includeNulls) then src[y][x] else BaseCell(base, x, y)
  }

  /** The grid a merge of `src` onto `base` produces: width `w`, as many rows as the taller of
      the two, and inside the first `h` rows every cell that passes `Keeps` taken from `src`. */
  function MergedCells<T(==)>(src: seq<seq<Option<T>>>, base: seq<seq<Option<T>>>, w: nat, h: nat,
                              mask: Option<seq<Option<T>>>, includeNulls: bool): (cells: seq<seq<Option<T>>>)
    requires w > 0 ==> h <= |src| && forall y :: 0 <= y < h ==> w <= |src[y]|
    requires forall y :: 0 <= y < |base| ==> w <= |base[y]|
    ensures |cells| == Max(|base|, |src|) && Rectangular(cells, w)
    ensures forall y, x :: 0 <= y < |cells| && 0 <= x < w ==>
      cells[y][x] == MergedCell(src, base, x, y, h, mask, includeNulls)
  {
    seq(Max(|base|, |src|), y requires 0 <= y < Max(|base|, |src|) =>
      seq(w, x requires 0 <= x < w => MergedCell(src, base, x, y, h, mask, includeNulls)))
  }

  /** Two grids of the same shape with the same cell everywhere are the same grid. */
  lemma SameCells<T>(a: seq<seq<Option<T>>>, b: seq<seq<Option<T>>>, w: nat)
    requires |a| == |b| && Rectangular(a, w) && Rectangular(b, w)
    requires forall y, x :: 0 <= y < |a| && 0 <= x < w ==> a[y][x] == b[y][x]
    ensures a == b
  {
    forall y | 0 <= y < |a|
      ensures a[y] == b[y]
    {
    }
  }

  /** The grid a filter produces: a cell keeps its value iff the value is present and in `mask`. */
  function FilteredCells<T(==)>(cells: seq<seq<Option<T>>>, mask: seq<Option<T>>): (r: seq<seq<Option<T>>>)
    ensures |r| == |cells| && forall y :: 0 <= y < |r| ==> |r[y]| == |cells[y]|
    ensures forall y, x :: 0 <= y < |r| && 0 <= x < |r[y]| && r[y][x].Some? ==> r[y][x] == cells[y][x] && r[y][x] in mask
  {
    seq(|cells|, y requires 0 <= y < |cells| =>
      seq(|cells[y]|, x requires 0 <= x < |cells[y]| =>
        if cells[y][x].Some? && cells[y][x] in mask then cells[y][x] else None))
  }

  function RenderRow<T>(row: seq<Option<T>>, mapper: Option<T> -> char): (line: string)
    ensures |line| == |row| && forall x :: 0 <= x < |row| ==> line[x] == mapper(row[x])
  {
    seq(|row|, x requires 0 <= x < |row| => mapper(row[x]))
  }

  /** The text lines a grid renders to, one character per cell. */
  function Render<T>(cells: seq<seq<Option<T>>>, mapper: Option<T> -> char): (lines: seq<string>)
    ensures |lines| == |cells| && forall y :: 0 <= y < |cells| ==> lines[y] == RenderRow(cells[y], mapper)
  {
    seq(|cells|, y requires 0 <= y < |cells| => RenderRow(cells[y], mapper))
  }

  /** The cells read from one text line: its first `width` characters, mapped. */
  function ReadRow<T>(line: string, width: nat, mapper: char -> Option<T>): (row: seq<Option<T>>)
    requires width <= |line|
    ensures |row| == width && forall x :: 0 <= x < width ==> row[x] == mapper(line[x])
  {
    seq(width, x requires 0 <= x < width => mapper(line[x]))
  }

  /** The cells read from text lines, one row per line. */
  function ReadCells<T>(lines: seq<string>, width: nat, mapper: char -> Option<T>): (cells: seq<seq<Option<T>>>)
    requires forall y :: 0 <= y < |lines| ==> width <= |lines[y]|
    ensures |cells| == |lines| && forall y :: 0 <= y < |lines| ==> cells[y] == ReadRow(lines[y], width, mapper)
  {
    seq(|lines|, y requires 0 <= y < |lines| => ReadRow(lines[y], width, mapper))
  }

  function RowPoints<T>(row: seq<Option<T>>, y: int): seq<MapPoint<T>>
  {
    seq(|row|, x requires 0 <= x < |row| => MapPoint(row[x], Point(x, y)))
  }

  /** Every cell with its coordinate, rows from top to bottom, each row left to right. */
  function RowMajorPoints<T>(cells: seq<seq<Option<T>>>): (points: seq<MapPoint<T>>)
    ensures forall k :: 0 <= k < |points| ==> 0 <= points[k].location.y < |cells|
  {
    if cells == [] then [] else RowMajorPoints(cells[..|cells| - 1]) + RowPoints(cells[|cells| - 1], |cells| - 1)
  }

  /** The character mapper `ToStringLines` uses by default: 'x' for a value, ' ' for none. */
  function PresenceMarker<T>(v: Option<T>): char
  {
    if v.Some? then 'x' else ' '
  }

  /** The character mapper `Map2D.FromReader` uses by default: every cell empty. */
  function NoValue<T>(c: char): Option<T>
  {
    None
  }

  class Map2D<T(==)> {
    var width: nat
    var rows: seq<array<Option<T>>>
    /** The cell values, row by row: `Cells[y][x]` is `this[x, y]`. */
    ghost var Cells: seq<seq<Option<T>>>
    ghost var Repr: set<object>

    /** Every row is a distinct array of exactly `width` slots holding the matching row of `Cells`. */
    ghost predicate Valid()
      reads this, Repr
    {
      this in Repr && |Cells| == |rows| && Rectangular(Cells, width) &&
      (forall y :: 0 <= y < |rows| ==> rows[y] in Repr && rows[y].Length == width && rows[y][..] == Cells[y]) &&
      (forall i, j :: 0 <= i < j < |rows| ==> rows[i] != rows[j])
    }

    function Width(): (w: nat)
      reads this
      ensures w == width
    {
      width
    }

    function Height(): (h: nat)
      reads this
      ensures h == |rows|
    {
      |rows|
    }

    /** `Width` and `Height` are the shape of the cells: `Height()` rows of `Width()` cells each. */
    lemma Shape()
      requires Valid()
      ensures Height() == |Cells|
      ensures forall y :: 0 <= y < |Cells| ==> |Cells[y]| == Width()
    {
    }

    /** `new Map2D<T>(width, height)`: `height` empty rows of `width` cells. */
    constructor (width: nat, height: nat)
      ensures Valid() && fresh(Repr)
      ensures this.width == width && Cells == seq(height, _ => Blank(width))
    {
      this.width := width;
      rows := [];
      Cells := [];
      Repr := {this};
      new;
      var y := 0;
      while y < height
        invariant 0 <= y <= height
        invariant Valid() && fresh(Repr) && this.width == width
        invariant Cells == seq(y, _ => Blank(width))
      {
        var _ := AppendRow(null);
        y := y + 1;
      }
    }

    /** `IsInside(x, y)`: whether the coordinate addresses a cell, negative ones included. */
    function IsInside(x: int, y: int): (inside: bool)
      reads this
      ensures inside <==> 0 <= x < Width() && 0 <= y < Height()
    {
      !(x < 0 || x >= width || y < 0 || y >= |rows|)
    }

    /** `IsInside(location)`: the same test on a point. */
    function IsInsidePoint(location: Point): (inside: bool)
      reads this
      ensures inside <==> 0 <= location.x < Width() && 0 <= location.y < Height()
    {
      IsInside(location.x, location.y)
    }

    /** `this[x, y]` (getter) */
    function Get(x: int, y: int): (v: Option<T>)
      reads this, Repr
      requires Valid() && IsInside(x, y)
      ensures v == Cells[y][x]
    {
      rows[y][x]
    }

    /** `this[x, y] = v`: writes one cell in place. */
    method Set(x: int, y: int, v: Option<T>)
      requires Valid() && IsInside(x, y)
      modifies this, rows[y]
      ensures Valid() && width == old(width) && rows == old(rows) && Repr == old(Repr)
      ensures Cells == old(Cells)[y := old(Cells)[y][x := v]]
    {
      rows[y][x] := v;
      Cells := Cells[y := rows[y][..]];
    }

    /** `AppendRow(data)`: adds a fresh row of `width` slots below the others, holding the first
        `width` elements of `data`, or nothing when no data is given; returns that row. */
    method AppendRow(data: array?<Option<T>>) returns (row: array<Option<T>>)
      requires Valid()
      requires data != null ==> width <= data.Length
      modifies this
      ensures Valid() && fresh(row) && row.Length == width && Repr == old(Repr) + {row}
      ensures width == old(width) && rows == old(rows) + [row]
      ensures Cells == old(Cells) + [if data == null then Blank(width) else data[..width]]
    {
      row := new Option<T>[width](_ => None);
      if data == null {
        assert row[..] == Blank(width);
      } else {
        forall i | 0 <= i < width {
          row[i] := data[i];
        }
        assert row[..] == data[..width];
      }
      rows := rows + [row];
      Cells := Cells + [row[..]];
      Repr := Repr + {row};
    }

    /** `CopyTo(other)`: clears `other`, then appends a copy of each of this grid's rows, cut to
        `other`'s width. Copying a grid onto itself leaves it empty; a grid without rows copies
        nothing, whatever the widths. */
    method CopyTo(other: Map2D<T>)
      requires Valid() && other.Valid()
      requires other != this && Height() > 0 ==> other.width <= width
      requires other == this || Repr !! other.Repr
      modifies other
      ensures other.Valid() && fresh(other.Repr - old(other.Repr))
      ensures other.width == old(other.width)
      ensures other == this ==> other.Cells == []
      ensures other != this ==> Valid() && Cells == old(Cells) && Repr !! other.Repr
      ensures other != this ==> |other.Cells| == |old(Cells)|
      ensures other != this ==>
        forall y :: 0 <= y < |old(Cells)| ==> other.Cells[y] == old(Cells)[y][..other.width]
    {
      other.rows := [];
      other.Cells := [];
      var y := 0;
      while y < |rows|
        invariant 0 <= y <= |rows|
        invariant other.Valid() && other.width == old(other.width)
        invariant fresh(other.Repr - old(other.Repr))
        invariant other == this ==> rows == []
        invariant other != this ==> rows == old(rows) && Cells == old(Cells) && Repr == old(Repr)
        invariant other != this ==> Valid() && Repr !! other.Repr
        invariant other != this ==> |other.Cells| == y
        invariant other != this ==> forall k :: 0 <= k < y ==> other.Cells[k] == Cells[k][..other.width]
      {
        var _ := other.AppendRow(rows[y]);
        y := y + 1;
      }
    }

    /** `Clone()`: an independent copy with fresh row arrays and the same cells. */
    method Clone() returns (copy: Map2D<T>)
      requires Valid()
      ensures copy.Valid() && fresh(copy.Repr)
      ensures copy.width == width && copy.Cells == Cells
    {
      copy := new Map2D(width, 0);
      CopyTo(copy);
      assert forall y :: 0 <= y < |rows| ==> Cells[y][..width] == Cells[y];
    }

    /** `Merge(other, mask, expand, includeNulls)`: a new grid holding `other` (or nothing) as a
        base layer, with every cell of this grid that passes the mask and null rules copied over
        it. Its width is this grid's when `expand` is set or there is no other grid, else the
        other's; it has as many rows as the taller of the two. Neither input changes. */
    method Merge(other: Map2D?<T>, mask: Option<seq<Option<T>>>, expand: bool, includeNulls: bool)
      returns (merged: Map2D<T>)
      requires Valid()
      requires other != null ==> other.Valid()
      requires other != null && expand && other.Height() > 0 ==> width <= other.width
      requires other != null && !expand && other.Height() > 0 && other.width > 0 ==>
        other.width <= width && other.Height() <= Height()
      ensures merged.Valid() && fresh(merged.Repr)
      ensures merged.width == if expand || other == null then width else other.width
      ensures merged.Cells ==
        MergedCells(Cells, if other == null then [] else other.Cells, merged.width,
                    if expand || other == null then Height() else other.Height(), mask, includeNulls)
    {
      var w := if expand || other == null then width else other.width;
      var h := if expand || other == null then |rows| else |other.rows|;
      ghost var base := if other == null then [] else other.Cells;
      merged := BaseLayer(other, w);
      var y := 0;
      while y < h
        invariant 0 <= y <= h
        invariant merged.Valid() && fresh(merged.Repr) && merged.width == w
        invariant |merged.Cells| == Max(|base|, |Cells|)
        invariant forall yy, xx :: 0 <= yy < y && 0 <= xx < w ==>
          merged.Cells[yy][xx] == MergedCell(Cells, base, xx, yy, h, mask, includeNulls)
        invariant forall yy, xx :: y <= yy < |merged.Cells| && 0 <= xx < w ==>
          merged.Cells[yy][xx] == BaseCell(base, xx, yy)
      {
        OverlayRow(merged, base, y, h, mask, includeNulls);
        y := y + 1;
      }
      SameCells(merged.Cells, MergedCells(Cells, base, w, h, mask, includeNulls), w);
    }

    /** The first half of `Merge`: a new grid of width `w` holding `other` (or nothing), cut to
        that width, with empty rows appended until it is at least as tall as this grid. */
    method BaseLayer(other: Map2D?<T>, w: nat) returns (merged: Map2D<T>)
      requires Valid()
      requires other != null ==> other.Valid() && (other.Height() > 0 ==> w <= other.width)
      ensures merged.Valid() && fresh(merged.Repr) && merged.width == w
      ensures |merged.Cells| == Max(if other == null then 0 else |other.Cells|, |Cells|)
      ensures forall yy, xx :: 0 <= yy < |merged.Cells| && 0 <= xx < w ==>
        merged.Cells[yy][xx] == BaseCell(if other == null then [] else other.Cells, xx, yy)
    {
      ghost var base := if other == null then [] else other.Cells;
      merged := new Map2D(w, 0);
      if other != null {
        other.CopyTo(merged);
      }
      while merged.Height() < Height()
        invariant merged.Valid() && fresh(merged.Repr) && merged.width == w
        invariant |base| <= |merged.Cells| <= Max(|base|, |Cells|)
        invariant forall yy, xx :: 0 <= yy < |merged.Cells| && 0 <= xx < w ==>
          merged.Cells[yy][xx] == BaseCell(base, xx, yy)
        decreases Height() - merged.Height()
      {
        var _ := merged.AppendRow(null);
      }
    }

    /** One pass of the inner loop of `Merge`: copies each cell of row `y` that passes the mask
        and null rules onto `merged`, which holds the base layer in that row. */
    method OverlayRow(merged: Map2D<T>, ghost base: seq<seq<Option<T>>>, y: nat, ghost h: nat,
                      mask: Option<seq<Option<T>>>, includeNulls: bool)
      requires Valid() && merged.Valid() && Repr !! merged.Repr
      requires y < h && y < |merged.Cells|
      requires merged.width > 0 ==> h <= |Cells| && merged.width <= width
      requires forall yy :: 0 <= yy < |base| ==> merged.width <= |base[yy]|
      requires forall xx :: 0 <= xx < merged.width ==> merged.Cells[y][xx] == BaseCell(base, xx, y)
      modifies merged, merged.rows[y]
      ensures merged.Valid() && merged.width == old(merged.width) && merged.Repr == old(merged.Repr)
      ensures |merged.Cells| == |old(merged.Cells)|
      ensures forall yy :: 0 <= yy < |merged.Cells| && yy != y ==> merged.Cells[yy] == old(merged.Cells)[yy]
      ensures forall xx :: 0 <= xx < merged.width ==>
        merged.Cells[y][xx] == MergedCell(Cells, base, xx, y, h, mask, includeNulls)
    {
      var x := 0;
      while x < merged.width
        invariant 0 <= x <= merged.width
        invariant merged.Valid() && merged.width == old(merged.width) && merged.Repr == old(merged.Repr)
        invariant merged.rows == old(merged.rows)
        invariant |merged.Cells| == |old(merged.Cells)|
        invariant forall yy :: 0 <= yy < |merged.Cells| && yy != y ==> merged.Cells[yy] == old(merged.Cells)[yy]
        invariant forall xx :: 0 <= xx < merged.width ==>
          merged.Cells[y][xx] == if xx < x then MergedCell(Cells, base, xx, y, h, mask, includeNulls)
                                 else BaseCell(base, xx, y)
      {
        var value := Get(x, y);
        if !((mask.Some? && value !in mask.value) || (!includeNulls && value.None?)) {
          merged.Set(x, y, value);
        }
        x := x + 1;
      }
    }

    /** `Filter(mask, includeNulls)`: a new grid of the same size in which a cell keeps its value
        iff the value is present and in `mask`. `includeNulls` is passed on in the position of
        `expand`, so it has no effect. */
    method Filter(mask: seq<Option<T>>, includeNulls: bool) returns (filtered: Map2D<T>)
      requires Valid()
      ensures filtered.Valid() && fresh(filtered.Repr)
      ensures filtered.width == width && filtered.Cells == FilteredCells(Cells, mask)
    {
      filtered := Merge(null, Some(mask), includeNulls, false);
      MergeOntoNothingFilters(Cells, width, mask);
    }

    /** `ToStringLines(mapper)`: one line per row, one mapped character per cell. */
    method ToStringLines(mapper: Option<Option<T> -> char>) returns (lines: seq<string>)
      requires Valid()
      ensures lines == Render(Cells, if mapper.Some? then mapper.value else PresenceMarker)
    {
      var m: Option<T> -> char := if mapper.Some? then mapper.value else PresenceMarker;
      ghost var cells := Cells;
      lines := [];
      var y := 0;
      while y < |rows|
        invariant 0 <= y <= |rows|
        invariant |lines| == y && forall k :: 0 <= k < y ==> lines[k] == RenderRow(cells[k], m)
      {
        var row := rows[y];
        assert row[..] == cells[y];
        var lineBuffer := "";
        var x := 0;
        while x < row.Length
          invariant 0 <= x <= row.Length
          invariant |lineBuffer| == x && forall i :: 0 <= i < x ==> lineBuffer[i] == m(cells[y][i])
        {
          lineBuffer := lineBuffer + [m(row[x])];
          x := x + 1;
        }
        assert lineBuffer == RenderRow(cells[y], m);
        lines := lines + [lineBuffer];
        y := y + 1;
      }
      assert lines == Render(cells, m);
    }

    /** The point enumerator: every cell with its coordinate, row-major. */
    method Points() returns (points: seq<MapPoint<T>>)
      requires Valid()
      ensures points == RowMajorPoints(Cells)
    {
      ghost var cells := Cells;
      points := [];
      var y := 0;
      while y < Height()
        invariant 0 <= y <= |rows|
        invariant points == RowMajorPoints(cells[..y])
      {
        var x := 0;
        while x < Width()
          invariant 0 <= x <= width
          invariant points == RowMajorPoints(cells[..y]) + RowPoints(cells[y], y)[..x]
        {
          points := points + [MapPoint(Get(x, y), Point(x, y))];
          x := x + 1;
        }
        assert cells[..y + 1][..y] == cells[..y];
        y := y + 1;
      }
      assert cells[..y] == cells;
    }

    /** The value enumerator: the same cells in the same order, without coordinates. */
    method Values() returns (values: seq<Option<T>>)
      requires Valid()
      ensures |values| == |RowMajorPoints(Cells)|
      ensures forall k :: 0 <= k < |values| ==> values[k] == RowMajorPoints(Cells)[k].value
    {
      ghost var cells := Cells;
      values := [];
      var y := 0;
      while y < Height()
        invariant 0 <= y <= |rows|
        invariant |values| == |RowMajorPoints(cells[..y])|
        invariant forall k :: 0 <= k < |values| ==> values[k] == RowMajorPoints(cells[..y])[k].value
      {
        ghost var done := RowMajorPoints(cells[..y]);
        var x := 0;
        while x < Width()
          invariant 0 <= x <= width
          invariant |values| == |done| + x
          invariant forall k :: 0 <= k < |values| ==> values[k] == (done + RowPoints(cells[y], y))[k].value
        {
          values := values + [Get(x, y)];
          x := x + 1;
        }
        assert cells[..y + 1][..y] == cells[..y];
        y := y + 1;
      }
      assert cells[..y] == cells;
    }
  }

  /** Merging onto no other grid with a mask and without null values is the filter. */
  lemma MergeOntoNothingFilters<T>(cells: seq<seq<Option<T>>>, w: nat, mask: seq<Option<T>>)
    requires Rectangular(cells, w)
    ensures MergedCells(cells, [], w, |cells|, Some(mask), false) == FilteredCells(cells, mask)
  {
    var m := MergedCells(cells, [], w, |cells|, Some(mask), false);
    var f := FilteredCells(cells, mask);
    forall y | 0 <= y < |cells|
      ensures m[y] == f[y]
    {
    }
  }

  /** Filtering twice with the same mask is filtering once. */
  lemma FilterIdempotent<T>(cells: seq<seq<Option<T>>>, mask: seq<Option<T>>)
    ensures FilteredCells(FilteredCells(cells, mask), mask) == FilteredCells(cells, mask)
  {
    var once := FilteredCells(cells, mask);
    var twice := FilteredCells(once, mask);
    forall y | 0 <= y < |cells|
      ensures twice[y] == once[y]
    {
    }
  }

  /** An empty mask lets nothing through: every cell of the filtered grid is empty. */
  lemma FilterEmptyMask<T>(cells: seq<seq<Option<T>>>)
    ensures forall y, x :: 0 <= y < |cells| && 0 <= x < |cells[y]| ==> FilteredCells(cells, [])[y][x].None?
  {
  }

  /** Without a mask and with null values included, the merge is opaque: inside the first `h`
      rows every cell is the source cell, whatever the base held there. */
  lemma OpaqueMergeCopies<T>(src: seq<seq<Option<T>>>, base: seq<seq<Option<T>>>, w: nat, h: nat)
    requires h <= |src| && forall y :: 0 <= y < h ==> w <= |src[y]|
    requires forall y :: 0 <= y < |base| ==> w <= |base[y]|
    ensures forall y :: 0 <= y < h ==> MergedCells(src, base, w, h, None, true)[y] == src[y][..w]
  {
    var m := MergedCells(src, base, w, h, None, true);
    forall y | 0 <= y < h
      ensures m[y] == src[y][..w]
    {
    }
  }

  /** In a grid of width `w`, the point enumerator yields the cell at (x, y) in position `y * w + x`. */
  lemma {:induction false} RowMajorIndex<T>(cells: seq<seq<Option<T>>>, w: nat, x: nat, y: nat)
    requires Rectangular(cells, w) && y < |cells| && x < w
    ensures |RowMajorPoints(cells)| == |cells| * w
    ensures y * w + x < |cells| * w
    ensures RowMajorPoints(cells)[y * w + x] == MapPoint(cells[y][x], Point(x, y))
  {
    OffsetInside(w, |cells|, x, y);
    var last := |cells| - 1;
    var init := cells[..last];
    assert Rectangular(init, w);
    var prefix := RowMajorPoints(init);
    assert RowMajorPoints(cells) == prefix + RowPoints(cells[last], last);
    RowMajorLength(cells, w);
    RowMajorLength(init, w);
    if y < last {
      RowMajorIndex(init, w, x, y);
      assert init[y] == cells[y];
    } else {
      assert y * w + x - |prefix| == x;
    }
  }

  /** The offset of (x, y) in a row-major grid of `h` rows of width `w` lies inside the grid. */
  lemma {:induction false} OffsetInside(w: nat, h: nat, x: nat, y: nat)
    requires x < w && y < h
    ensures y * w + x < h * w
  {
    if h == y + 1 {
      assert h * w == y * w + w;
    } else {
      OffsetInside(w, h - 1, x, y);
      assert h * w == (h - 1) * w + w;
    }
  }

  lemma {:induction false} RowMajorLength<T>(cells: seq<seq<Option<T>>>, w: nat)
    requires Rectangular(cells, w)
    ensures |RowMajorPoints(cells)| == |cells| * w
  {
    if cells != [] {
      var last := |cells| - 1;
      var init := cells[..last];
      assert Rectangular(init, w);
      RowMajorLength(init, w);
      assert |RowMajorPoints(cells)| == last * w + w;
      assert last * w + w == |cells| * w;
    }
  }

  /** `Map2D.FromReader(reader, mapper)`: reads lines until an empty one or the end of input.
      No grid when the first line is missing or empty; otherwise the grid is as wide as the first
      line and has one row per line read, cell x of row y being the mapped character x of line y.
      Every line read must be at least as long as the first. */
  method FromReader<T(==)>(lines: seq<string>, mapper: Option<char -> Option<T>>) returns (map2d: Map2D?<T>)
    requires forall y :: 0 <= y < Text.UntilEmpty(lines) ==> |lines[0]| <= |lines[y]|
    ensures map2d == null <==> Text.UntilEmpty(lines) == 0
    ensures map2d != null ==>
      map2d.Valid() && fresh(map2d.Repr) && map2d.width == |lines[0]| &&
      map2d.Cells == ReadCells(lines[..Text.UntilEmpty(lines)], |lines[0]|,
                                 if mapper.Some? then mapper.value else NoValue)
  {
    var m: char -> Option<T> := if mapper.Some? then mapper.value else NoValue;
    ghost var n := Text.UntilEmpty(lines);
    var i := 0;
    var line := Text.ReadLine(lines, i);
    map2d := null;
    while !Text.IsNullOrEmpty(line)
      invariant 0 <= i <= n
      invariant line == Text.ReadLine(lines, i)
      invariant map2d == null <==> i == 0
      invariant map2d != null ==>
        map2d.Valid() && fresh(map2d.Repr) && map2d.width == |lines[0]| &&
        map2d.Cells == ReadCells(lines[..i], |lines[0]|, m)
      decreases n - i
    {
      assert i < n && line.value == lines[i];
      if map2d == null {
        map2d := new Map2D(|line.value|, 0);
      }
      AppendLine(map2d, line.value, m);
      assert lines[..i + 1] == lines[..i] + [lines[i]];
      i := i + 1;
      line := Text.ReadLine(lines, i);
    }
  }

  /** The body of the `FromReader` loop: appends an empty row, then writes the mapped characters
      of `line` into it through the array `AppendRow` returned. */
  method AppendLine<T(==)>(map2d: Map2D<T>, line: string, m: char -> Option<T>)
    requires map2d.Valid() && map2d.width <= |line|
    modifies map2d
    ensures map2d.Valid() && fresh(map2d.Repr - old(map2d.Repr)) && map2d.width == old(map2d.width)
    ensures map2d.Cells == old(map2d.Cells) + [ReadRow(line, map2d.width, m)]
  {
    var row := map2d.AppendRow(null);
    var charValues := line;
    var col := 0;
    while col < row.Length
      modifies row
      invariant 0 <= col <= row.Length
      invariant forall x :: 0 <= x < col ==> row[x] == m(charValues[x])
    {
      row[col] := m(charValues[col]);
      col := col + 1;
    }
    assert row[..] == ReadRow(line, map2d.width, m);
    map2d.Cells := map2d.Cells[|map2d.Cells| - 1 := row[..]];
  }

  /** `AdventMap2D.DefaultInputMapper`: '.' is an empty cell, any other character itself. */
  function DefaultInputMapper(c: char): (v: Option<char>)
    ensures v != Some('.')
    ensures DefaultOutputMapper(v) == c
  {
    if c == '.' then None else Some(c)
  }

  /** `AdventMap2D.DefaultOutputMapper`: an empty cell is '.', a value is itself. */
  function DefaultOutputMapper(v: Option<char>): (c: char)
    ensures c != '.' ==> v == Some(c)
  {
    if v.Some? then v.value else '.'
  }

  /** `AdventMap2D.FromReader`: `Map2D.FromReader` with `DefaultInputMapper` unless a mapper is given. */
  method AdventFromReader(lines: seq<string>, mapper: Option<char -> Option<char>>) returns (map2d: Map2D?<char>)
    requires forall y :: 0 <= y < Text.UntilEmpty(lines) ==> |lines[0]| <= |lines[y]|
    ensures map2d == null <==> Text.UntilEmpty(lines) == 0
    ensures map2d != null ==>
      map2d.Valid() && fresh(map2d.Repr) && map2d.width == |lines[0]| &&
      map2d.Cells == ReadCells(lines[..Text.UntilEmpty(lines)], |lines[0]|,
                                 if mapper.Some? then mapper.value else DefaultInputMapper)
  {
    var m: char -> Option<char> := if mapper.Some? then mapper.value else DefaultInputMapper;
    map2d := FromReader(lines, Some(m));
  }

  /** `AdventMap2D.ToStringLines`: no lines for no grid, else the rendering with
      `DefaultOutputMapper` unless a mapper is given. */
  method AdventToStringLines(map2d: Map2D?<char>, mapper: Option<Option<char> -> char>) returns (lines: seq<string>)
    requires map2d != null ==> map2d.Valid()
    ensures map2d == null ==> lines == []
    ensures map2d != null ==>
      lines == Render(map2d.Cells, if mapper.Some? then mapper.value else DefaultOutputMapper)
  {
    if map2d == null {
      return [];
    }
    var m: Option<char> -> char := if mapper.Some? then mapper.value else DefaultOutputMapper;
    lines := map2d.ToStringLines(Some(m));
  }

  /** Reading lines of one width with the default input mapper and rendering the grid with the
      default output mapper gives back the lines. */
  lemma DefaultMappersRoundTrip(lines: seq<string>, w: nat)
    requires forall y :: 0 <= y < |lines| ==> |lines[y]| == w
    ensures Render(ReadCells(lines, w, DefaultInputMapper), DefaultOutputMapper) == lines
  {
    var cells := ReadCells(lines, w, DefaultInputMapper);
    forall y | 0 <= y < |lines|
      ensures RenderRow(cells[y], DefaultOutputMapper) == lines[y]
    {
    }
  }

  /** Rendering a grid with the default output mapper and reading it back with the default input
      mapper gives back the grid, provided no cell holds '.' itself (which reads back as empty). */
  lemma DefaultMappersReadBack(cells: seq<seq<Option<char>>>, w: nat)
    requires Rectangular(cells, w)
    requires forall y, x :: 0 <= y < |cells| && 0 <= x < w ==> cells[y][x] != Some('.')
    ensures ReadCells(Render(cells, DefaultOutputMapper), w, DefaultInputMapper) == cells
  {
    var lines := Render(cells, DefaultOutputMapper);
    forall y | 0 <= y < |cells|
      ensures ReadRow(lines[y], w, DefaultInputMapper) == cells[y]
    {
    }
  }
}
