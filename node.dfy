/**
 * One grid cell (node.py): fixed coordinates, the square it is drawn in, and the
 * pathfinding fields that the search updates in place.
 */
module Nodes {
  import opened Wrappers
  import opened Lists

  /** The fields of a node that the search writes: parent, g, h and f. */
  datatype SearchFields = SearchFields(parent: Node?, g: Option<int>, h: Option<int>, f: Option<int>)

  class Node {
    /** Column and row of the cell in the grid. */
    const x: nat
    const y: nat
    /** Side of the drawn square in pixels (the application's `cell_size`). */
    const cellSize: nat

    /** Back-pointer set when the search reaches this node; `None` until then. */
    var parent: Node?
    /** Cost from the start, estimate to the end, and their sum; `None` until computed. */
    var g: Option<int>
    var h: Option<int>
    var f: Option<int>
    var obstacle: bool

    constructor (x: nat, y: nat, cellSize: nat)
      ensures this.x == x && this.y == y && this.cellSize == cellSize
      ensures parent == null && g == None && h == None && f == None
      ensures !obstacle
    {
      this.x := x;
      this.y := y;
      this.cellSize := cellSize;
      parent := null;
      g := None;
      h := None;
      f := None;
      obstacle := false;
    }

    /** The current values of the fields the search writes. */
    function Fields(): SearchFields
      reads this
    {
      SearchFields(parent, g, h, f)
    }

    /** Corners (left, top, right, bottom) of the square drawn for this cell. */
    function Square(): (int, int, int, int) {
      (x * cellSize, y * cellSize, (x + 1) * cellSize, (y + 1) * cellSize)
    }

    /** The pixel lies in the square: the left and top edges belong to it, the right and bottom ones to the next cells. */
    predicate Covers(px: int, py: int) {
      Square().0 <= px < Square().2 && Square().1 <= py < Square().3
    }

    /**
     * Floor division by the cell size maps exactly the pixels of this square back to
     * this cell's coordinates, which is how a click finds its cell.
     */
    lemma PixelLookup(px: int, py: int)
      requires cellSize > 0
      ensures Covers(px, py) <==> px / cellSize == x && py / cellSize == y
    {
      DivRange(px, cellSize, x);
      DivRange(py, cellSize, y);
    }

    /** `repr(node)`: the column, a space, then the row, both in decimal. */
    function Repr(): (s: string)
      ensures ParseCoordinates(s) == Some((x, y))
    {
      ReprParses(x, y);
      Decimal(x) + " " + Decimal(y)
    }
  }

  /** Floor division by a positive divisor picks the interval [q * d, (q + 1) * d) that holds the dividend. */
  lemma DivRange(p: int, d: int, q: int)
    requires d > 0
    ensures q * d <= p < (q + 1) * d <==> p / d == q
  {
    var k := p / d - q;
    assert p == (p / d) * d + p % d && 0 <= p % d < d;
    assert k * d == p - p % d - q * d;
    MultipleOfDivisor(k, d);
  }

  /** A multiple of a positive d that is closer to 0 than d is 0 itself. */
  lemma MultipleOfDivisor(k: int, d: int)
    requires d > 0
    ensures -d < k * d < d ==> k == 0
  {
    if k > 0 {
      MultipleAtLeast(k, d);
    } else if k < 0 {
      MultipleAtLeast(-k, d);
      assert k * d == -((-k) * d);
    }
  }

  lemma {:induction false} MultipleAtLeast(k: nat, d: nat)
    requires k > 0
    ensures k * d >= d
  {
    if k > 1 {
      MultipleAtLeast(k - 1, d);
      assert k * d == (k - 1) * d + d;
    }
  }

  function DigitChar(v: nat): (c: char)
    requires v < 10
    ensures '0' <= c <= '9' && c as int - '0' as int == v
  {
    ('0' as int + v) as char
  }

  /** Decimal numeral of `n`, most significant digit first, as Python's `str(n)`. */
  function Decimal(n: nat): (s: string)
    ensures IsNumeral(s)
    decreases n
  {
    if n < 10 then [DigitChar(n)] else Decimal(n / 10) + [DigitChar(n % 10)]
  }

  /** A non-empty string of decimal digits. */
  predicate IsNumeral(s: string) {
    |s| > 0 && forall i | 0 <= i < |s| :: '0' <= s[i] <= '9'
  }

  /** Value of a string of decimal digits. */
  function Value(s: string): nat
    requires forall i | 0 <= i < |s| :: '0' <= s[i] <= '9'
  {
    if s == [] then 0 else Value(s[..|s| - 1]) * 10 + (s[|s| - 1] as int - '0' as int)
  }

  /** Reading a numeral back gives the number it was written from. */
  lemma {:induction false} DecimalValue(n: nat)
    ensures Value(Decimal(n)) == n
  {
    if n >= 10 {
      var s := Decimal(n);
      assert s[..|s| - 1] == Decimal(n / 10);
      DecimalValue(n / 10);
    }
  }

  /** Splits "X Y" at its first space and reads both numerals. */
  function ParseCoordinates(s: string): Option<(nat, nat)> {
    if ' ' !in s then None
    else
      var k := IndexOf(s, ' ');
      if IsNumeral(s[..k]) && IsNumeral(s[k + 1..]) then Some((Value(s[..k]), Value(s[k + 1..])))
      else None
  }

  lemma ReprParses(x: nat, y: nat)
    ensures ParseCoordinates(Decimal(x) + " " + Decimal(y)) == Some((x, y))
  {
    var a, b := Decimal(x), Decimal(y);
    var s := a + " " + b;
    assert s[|a|] == ' ';
    assert ' ' !in a;
    assert s[..|a|] == a;
    assert IndexOf(s, ' ') == |a|;
    assert s[|a| + 1..] == b;
    DecimalValue(x);
    DecimalValue(y);
  }
}
