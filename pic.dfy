/**
  The slice exercise: `Pic` and `PicReal` build a `dy`-row, `dx`-column grid
  whose entry at row `i`, column `j` is `uint8(i*j)`.
 */
module Slices {
  import opened GoBasics

  /** How many times `for i := range n` iterates: none when `n <= 0`. */
  function RangeCount(n: int): nat
  {
    if n < 0 then 0 else n
  }

  /** The picture: `RangeCount(dy)` rows, each of `RangeCount(dx)` entries,
      entry `[i][j]` being `i*j` truncated to eight bits. */
  ghost predicate IsPic(g: seq<seq<uint8>>, dx: int, dy: int) {
    && |g| == RangeCount(dy)
    && (forall i :: 0 <= i < |g| ==> |g[i]| == RangeCount(dx))
    && (forall i, j :: 0 <= i < |g| && 0 <= j < |g[i]| ==> g[i][j] == Uint8(i * j))
  }

  /** `Pic`: appends `uint8(i*j)` to a row that starts empty (the outer `temp`
      is nil, so `temp[:0]` is a fresh nil slice) and appends each row to the
      result. */
  method Pic(dx: int, dy: int) returns (result: seq<seq<uint8>>)
    ensures IsPic(result, dx, dy)
  {
    result := [];
    for i := 0 to RangeCount(dy)
      invariant IsPic(result, dx, i)
    {
      var temp: seq<uint8> := [];
      for j := 0 to RangeCount(dx)
        invariant |temp| == j
        invariant forall k :: 0 <= k < j ==> temp[k] == Uint8(i * k)
      {
        temp := temp + [Uint8(i * j)];
      }
      result := result + [temp];
    }
  }

  /** `PicReal`: `make` the `dy` rows, then `make` each row of `dx` entries
      and write every entry. `make` panics on a negative length, so `dy` must
      be non-negative, and `dx` too unless there are no rows to make. */
  method PicReal(dx: int, dy: int) returns (result: array2<uint8>)
    requires dy >= 0 && (dy > 0 ==> dx >= 0)
    ensures fresh(result)
    ensures result.Length0 == dy && (dy > 0 ==> result.Length1 == dx)
    ensures forall x, y :: 0 <= x < dy && 0 <= y < result.Length1 ==> result[x, y] == Uint8(x * y)
  {
    var width := if dy == 0 then 0 else dx;
    result := new uint8[dy, width]((_, _) => 0);
    for x := 0 to dy
      invariant forall x', y :: 0 <= x' < x && 0 <= y < width ==> result[x', y] == Uint8(x' * y)
    {
      for y := 0 to width
        invariant forall x', y' :: 0 <= x' < x && 0 <= y' < width ==> result[x', y'] == Uint8(x' * y')
        invariant forall y' :: 0 <= y' < y ==> result[x, y'] == Uint8(x * y')
      {
        result[x, y] := Uint8(x * y);
      }
    }
  }

  /** Wherever `PicReal` does not panic the two variants have the same shape
      and the same entries. */
  method VariantsAgree(dx: int, dy: int) returns (a: seq<seq<uint8>>, b: array2<uint8>)
    requires dy >= 0 && (dy > 0 ==> dx >= 0)
    ensures |a| == b.Length0 == dy
    ensures forall i :: 0 <= i < |a| ==> |a[i]| == b.Length1 == dx
    ensures forall i, j :: 0 <= i < |a| && 0 <= j < |a[i]| ==> a[i][j] == b[i, j]
  {
    a := Pic(dx, dy);
    b := PicReal(dx, dy);
  }

  /** The shape and the value rule determine the picture. */
  lemma PicUnique(g: seq<seq<uint8>>, h: seq<seq<uint8>>, dx: int, dy: int)
    requires IsPic(g, dx, dy) && IsPic(h, dx, dy)
    ensures g == h
  {
    forall i | 0 <= i < |g| ensures g[i] == h[i] {
    }
  }

  /** Row 0 and column 0 are zero, and a square picture is symmetric. */
  lemma PicBorderAndSymmetry(g: seq<seq<uint8>>, dx: int, dy: int)
    requires IsPic(g, dx, dy)
    ensures forall i, j :: 0 <= i < |g| && 0 <= j < |g[i]| && (i == 0 || j == 0) ==> g[i][j] == 0
    ensures dx == dy ==> forall i, j :: 0 <= i < |g| && 0 <= j < |g| ==> g[i][j] == g[j][i]
  {
    if dx == dy {
      forall i, j | 0 <= i < |g| && 0 <= j < |g| ensures g[i][j] == g[j][i] {
        assert i * j == j * i;
      }
    }
  }

  /** With a negative height `Pic` returns no rows; with a negative width it
      returns `dy` empty rows. */
  lemma PicNegative(g: seq<seq<uint8>>, dx: int, dy: int)
    requires IsPic(g, dx, dy)
    ensures dy <= 0 ==> g == []
    ensures dx <= 0 ==> forall i :: 0 <= i < |g| ==> g[i] == []
  {
  }
}
