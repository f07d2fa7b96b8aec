/** Row-major grid arithmetic: Python's integer division, the coordinate helper,
    `list.index`, the two-cell swap, and what a well-formed puzzle grid is. */
module Grid {
  import opened Wrappers

  /** The exception Python raises for a division by zero. */
  datatype ArithError = ZeroDivision

  /** Python's `a // b`: the quotient rounded towards negative infinity. */
  function FloorDiv(a: int, b: int): (q: int)
    requires b != 0
    ensures b > 0 ==> b * q <= a < b * q + b
    ensures b < 0 ==> b * q + b < a <= b * q
  {
    if b > 0 then a / b else (-a) / (-b)
  }

  /** Python's `a % b`: the remainder takes the sign of the divisor. */
  function FloorMod(a: int, b: int): (r: int)
    requires b != 0
    ensures a == b * FloorDiv(a, b) + r
    ensures b > 0 ==> 0 <= r < b
    ensures b < 0 ==> b < r <= 0
  {
    a - b * FloorDiv(a, b)
  }

  /** `Node.getCoordinates(index, size)`: the column and row of a row-major index. */
  function GetCoordinates(index: int, size: int): (r: Result<(int, int), ArithError>)
    ensures r.Failure? <==> size == 0
    ensures size > 0 ==> r.Success? && 0 <= r.value.0 < size && r.value.1 * size + r.value.0 == index
    ensures size > 0 && 0 <= index < size * size ==> 0 <= r.value.1 < size
  {
    if size == 0 then Failure(ZeroDivision)
    else
      var x, y := FloorMod(index, size), FloorDiv(index, size);
      if size > 0 && 0 <= index < size * size then
        RowInRange(index, size, x, y);
        Success((x, y))
      else
        Success((x, y))
  }

  /** A row-major index below `size * size` lies on one of the `size` rows. */
  lemma RowInRange(index: int, size: int, x: int, y: int)
    requires size > 0 && 0 <= index < size * size
    requires 0 <= x < size && y * size + x == index
    ensures 0 <= y < size
  {
    QuotientUnique(y, x, 0, index, size);
    if y >= size {
      QuotientUnique(y, x, size, index - size * size, size);
    }
  }

  /** Multiplying by a positive factor keeps at least the factor. */
  lemma {:induction false} ScaleAtLeast(a: int, b: int)
    requires a >= 1 && b > 0
    ensures a * b >= b
  {
    if a > 1 {
      ScaleAtLeast(a - 1, b);
      assert a * b == (a - 1) * b + b;
    }
  }

  /** Two row-major decompositions of the same index with in-row columns agree on the row. */
  lemma QuotientUnique(q: int, r: int, y: int, x: int, size: int)
    requires size > 0 && 0 <= r < size
    requires q * size + r == y * size + x
    ensures 0 <= x < size ==> q == y
    ensures x < 0 ==> q < y
    ensures x >= size ==> q > y
  {
    assert (q - y) * size == x - r;
    if q > y {
      ScaleAtLeast(q - y, size);
    } else if q < y {
      ScaleAtLeast(y - q, size);
      assert (y - q) * size == r - x;
    }
  }

  /** Row-major position of column `x`, row `y`. */
  function CellIndex(x: int, y: int, size: int): int {
    y * size + x
  }

  /** `GetCoordinates` inverts the row-major layout: every in-row column and every row come back. */
  lemma {:induction false} CoordinatesRoundTrip(x: int, y: int, size: int)
    requires size > 0 && 0 <= x < size
    ensures GetCoordinates(CellIndex(x, y, size), size) == Success((x, y))
  {
    var i := CellIndex(x, y, size);
    QuotientUnique(FloorDiv(i, size), FloorMod(i, size), y, x, size);
  }

  /** Python's `s.index(v)`: the first position holding `v`. */
  function FirstIndex(s: seq<int>, v: int): (r: nat)
    requires v in s
    ensures r < |s| && s[r] == v
    ensures forall j :: 0 <= j < r ==> s[j] != v
  {
    if s[0] == v then 0 else 1 + FirstIndex(s[1..], v)
  }

  /** The simultaneous assignment `s[i], s[j] = s[j], s[i]` on a copy of `s`. */
  function Swap(s: seq<int>, i: int, j: int): (r: seq<int>)
    requires 0 <= i < |s| && 0 <= j < |s|
    ensures |r| == |s|
    ensures r[i] == s[j] && r[j] == s[i]
    ensures forall k :: 0 <= k < |s| && k != i && k != j ==> r[k] == s[k]
  {
    s[i := s[j]][j := s[i]]
  }

  /** A swap rearranges the values and neither adds nor loses any. */
  lemma SwapPermutes(s: seq<int>, i: int, j: int)
    requires 0 <= i < |s| && 0 <= j < |s|
    ensures multiset(Swap(s, i, j)) == multiset(s)
  {
  }

  /** Swapping back undoes a swap. */
  lemma SwapBack(s: seq<int>, i: int, j: int)
    requires 0 <= i < |s| && 0 <= j < |s|
    ensures Swap(Swap(s, i, j), j, i) == s
  {
    var t := Swap(Swap(s, i, j), j, i);
    assert forall k :: 0 <= k < |s| ==> t[k] == s[k];
  }

  /** The values `0, 1, ..., k-1` in order. */
  function Range(k: nat): (r: seq<int>)
    ensures |r| == k
    ensures forall i :: 0 <= i < k ==> r[i] == i
  {
    if k == 0 then [] else Range(k - 1) + [k - 1]
  }

  /** A legal board: `n * n` cells holding each of `0 .. n*n-1` exactly once. */
  ghost predicate IsPuzzleGrid(g: seq<int>, n: int) {
    n > 0 && |g| == n * n && multiset(g) == multiset(Range(n * n))
  }

  /** Each value below `k` occurs exactly once in `Range(k)`, and nothing else occurs. */
  lemma {:induction false} RangeCount(k: nat, v: int)
    ensures multiset(Range(k))[v] == (if 0 <= v < k then 1 else 0)
  {
    if k > 0 {
      RangeCount(k - 1, v);
      assert Range(k) == Range(k - 1) + [k - 1];
      assert multiset(Range(k)) == multiset(Range(k - 1)) + multiset{k - 1};
    }
  }

  /** Two positions holding `v` make `v` occur at least twice. */
  lemma {:induction false} TwoOccurrences(s: seq<int>, i: int, j: int)
    requires 0 <= i < j < |s| && s[i] == s[j]
    ensures multiset(s)[s[i]] >= 2
  {
    var last := |s| - 1;
    var init := s[..last];
    assert s == init + [s[last]];
    assert multiset(s) == multiset(init) + multiset{s[last]};
    if j == last {
      assert s[i] == init[i];
      assert init[i] in multiset(init);
    } else {
      assert init[i] == s[i] && init[j] == s[j];
      TwoOccurrences(init, i, j);
    }
  }

  /** A legal board has its blank in exactly one cell. */
  lemma UniqueBlank(g: seq<int>, n: int)
    requires IsPuzzleGrid(g, n)
    ensures 0 in g
    ensures forall i, j :: 0 <= i < |g| && 0 <= j < |g| && g[i] == 0 && g[j] == 0 ==> i == j
  {
    RangeCount(n * n, 0);
    assert 0 < n * n;
    assert 0 in multiset(g);
    forall i, j | 0 <= i < |g| && 0 <= j < |g| && g[i] == 0 && g[j] == 0
      ensures i == j
    {
      if i < j {
        TwoOccurrences(g, i, j);
      } else if j < i {
        TwoOccurrences(g, j, i);
      }
    }
  }
}
