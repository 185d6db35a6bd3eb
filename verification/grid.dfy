/**
 * The 25 x 80 text surface (`VgaTextBuffer`): rows of (glyph, attribute)
 * cells, the whole-cell write, and the row shift behind `scroll_up`,
 * together with the raw `core::ptr::copy` the source uses for it.
 */
module Grid {
  import opened Base
  import opened Color

  const Width: nat := 80
  const Height: nat := 25
  /** `size_of::<VgaTextChar>()`: a glyph byte and an attribute byte. */
  const CellBytes: nat := 2
  const Space: Byte := 0x20

  /** `VgaTextChar`. */
  datatype Cell = Cell(ch: Byte, attr: ColorCode)

  type Rows = seq<seq<Cell>>

  predicate Uniform(g: Rows)
  {
    forall r :: 0 <= r < |g| ==> |g[r]| == Width
  }

  /** A full screen: `Height` rows of `Width` cells. */
  predicate Shaped(g: Rows)
  {
    |g| == Height && Uniform(g)
  }

  /** `g'` differs from `g` at most in the cell (`row`, `col`), which holds `cell`. */
  predicate OnlyChanged(g: Rows, g': Rows, row: nat, col: nat, cell: Cell)
    requires Shaped(g) && Shaped(g')
  {
    forall i, j :: 0 <= i < Height && 0 <= j < Width ==>
      g'[i][j] == (if i == row && j == col then cell else g[i][j])
  }

  /** `g'` is `g` with `text` written left to right from (`row`, `col`) in attribute `attr`. */
  predicate RowWritten(g: Rows, g': Rows, row: nat, col: nat, text: seq<Byte>, attr: ColorCode)
    requires Shaped(g) && Shaped(g')
  {
    forall i, j :: 0 <= i < Height && 0 <= j < Width ==>
      g'[i][j] == (if i == row && col <= j < col + |text| then Cell(text[j - col], attr) else g[i][j])
  }

  /** `chars[row][col] = cell`. */
  function SetCell(g: Rows, row: nat, col: nat, cell: Cell): (g': Rows)
    requires Shaped(g) && row < Height && col < Width
    ensures Shaped(g') && OnlyChanged(g, g', row, col, cell)
  {
    g[row := g[row][col := cell]]
  }

  /**
   * The intended effect of `scroll_up(n)` on the surface: rows `[n, Height)`
   * move to `[0, Height - n)`, and the bottom `n` rows keep their old,
   * stale contents (they are not cleared).
   */
  function ScrollRows(g: Rows, n: nat): (g': Rows)
    requires Shaped(g) && n <= Height
    ensures Shaped(g')
    ensures forall r :: 0 <= r < Height - n ==> g'[r] == g[r + n]
    ensures forall r :: Height - n <= r < Height ==> g'[r] == g[r]
  {
    g[n..] + g[Height - n..]
  }

  /** The row-major memory image of a surface. */
  function Flatten(g: Rows): (mem: seq<Cell>)
    ensures Uniform(g) ==> |mem| == |g| * Width
    decreases |g|
  {
    if |g| == 0 then [] else g[0] + Flatten(g[1..])
  }

  lemma {:induction false} FlattenAppend(a: Rows, b: Rows)
    ensures Flatten(a + b) == Flatten(a) + Flatten(b)
    decreases |a|
  {
    if |a| == 0 {
      assert a + b == b;
    } else {
      assert (a + b)[1..] == a[1..] + b;
      FlattenAppend(a[1..], b);
    }
  }

  /** Dropping the first `i` rows drops the first `i * Width` cells of the image. */
  lemma {:induction false} FlattenSuffix(g: Rows, i: nat)
    requires Uniform(g) && i <= |g|
    ensures Flatten(g[i..]) == Flatten(g)[i * Width..]
    decreases i
  {
    if i > 0 {
      FlattenSuffix(g[1..], i - 1);
      assert g[1..][i - 1..] == g[i..];
      assert |g[0]| == Width;
      assert Flatten(g)[i * Width..] == Flatten(g[1..])[(i - 1) * Width..];
    }
  }

  /**
   * `core::ptr::copy(src, dst, count)` over a memory of cells, with offsets
   * and `count` in elements; an access outside `mem` faults (`None`).
   */
  function MemMove(mem: seq<Cell>, src: nat, dst: nat, count: nat): (r: Option<seq<Cell>>)
    ensures r.Some? <==> src + count <= |mem| && dst + count <= |mem|
    ensures r.Some? ==> |r.value| == |mem|
    ensures r.Some? ==> forall k :: 0 <= k < |mem| ==>
              r.value[k] == (if dst <= k < dst + count then mem[src + (k - dst)] else mem[k])
  {
    if src + count <= |mem| && dst + count <= |mem| then
      Some(mem[..dst] + mem[src..src + count] + mem[dst + count..])
    else
      None
  }

  /**
   * `scroll_up(line)` as written: rows `line..` are copied to row 0 with a
   * count of `(Height - line) * Width * size_of::<VgaTextChar>()`, a byte
   * count where `ptr::copy` expects elements; `&buffer[line]` with
   * `line == Height` is itself out of range.
   */
  function ScrollCopyAsWritten(g: Rows, line: nat): Option<seq<Cell>>
    requires Shaped(g)
  {
    if line > Height then Some(Flatten(g))
    else if line == Height then None
    else MemMove(Flatten(g), line * Width, 0, (Height - line) * Width * CellBytes)
  }

  /** The copy as written leaves the buffer for every line count it does not skip. */
  lemma AsWrittenScrollOverruns(g: Rows, line: nat)
    requires Shaped(g) && line <= Height
    ensures ScrollCopyAsWritten(g, line) == None
  {
  }

  /**
   * With an element count the same copy is exactly the intended row shift
   * `ScrollRows` on the memory image.
   */
  lemma ElementCountCopyShiftsRows(g: Rows, line: nat)
    requires Shaped(g) && line < Height
    ensures MemMove(Flatten(g), line * Width, 0, (Height - line) * Width) == Some(Flatten(ScrollRows(g, line)))
  {
    var mem := Flatten(g);
    var src := line * Width;
    var count := (Height - line) * Width;
    assert src + count == |mem| by {
      assert |mem| == Height * Width;
    }
    FlattenSuffix(g, line);
    FlattenSuffix(g, Height - line);
    FlattenAppend(g[line..], g[Height - line..]);
    calc {
      mem[..0] + mem[src..src + count] + mem[count..];
    ==  { assert mem[..0] + mem[src..src + count] == mem[src..]; }
      mem[src..] + mem[count..];
    ==
      Flatten(g[line..]) + Flatten(g[Height - line..]);
    }
  }
}
