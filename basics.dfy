/** Small shared vocabulary: optional values and results for the source's
    `null`/`undefined` and error returns, the `true`-count of a row mask, and
    the UTF-8 width of a rune (Go strings are UTF-8 byte sequences). */
module Basics {

  datatype Option<+T> = None | Some(value: T)

  datatype Result<+T, +E> = Success(value: T) | Failure(error: E)

  /** Number of `true` entries of a row mask (a row's active-slot count). */
  function TrueCount(row: seq<bool>): (n: nat)
    ensures n <= |row|
  {
    if row == [] then 0
    else TrueCount(row[..|row| - 1]) + (if row[|row| - 1] then 1 else 0)
  }

  /** No column is counted exactly when no entry is `true`. */
  lemma {:induction false} TrueCountZero(row: seq<bool>)
    ensures TrueCount(row) == 0 <==> forall k :: 0 <= k < |row| ==> !row[k]
    decreases |row|
  {
    if row != [] {
      TrueCountZero(row[..|row| - 1]);
    }
  }

  lemma {:induction false} TrueCountAppend(a: seq<bool>, b: seq<bool>)
    ensures TrueCount(a + b) == TrueCount(a) + TrueCount(b)
    decreases |b|
  {
    if b == [] {
      assert a + b == a;
    } else {
      assert (a + b)[..|a + b| - 1] == a + b[..|b| - 1];
      TrueCountAppend(a, b[..|b| - 1]);
    }
  }

  /** Counting from the front: the first entry plus the rest. */
  lemma TrueCountCons(row: seq<bool>)
    requires row != []
    ensures TrueCount(row) == (if row[0] then 1 else 0) + TrueCount(row[1..])
  {
    assert row == [row[0]] + row[1..];
    TrueCountAppend([row[0]], row[1..]);
    assert [row[0]][..0] == [];
  }

  /** An all-`true` row counts every column. */
  lemma {:induction false} TrueCountAllTrue(row: seq<bool>)
    requires forall k :: 0 <= k < |row| ==> row[k]
    ensures TrueCount(row) == |row|
    decreases |row|
  {
    if row != [] {
      TrueCountAllTrue(row[..|row| - 1]);
    }
  }

  /** Counting the first `i` entries never exceeds counting the whole row. */
  lemma TrueCountPrefix(row: seq<bool>, i: nat)
    requires i <= |row|
    ensures TrueCount(row[..i]) <= TrueCount(row)
  {
    assert row == row[..i] + row[i..];
    TrueCountAppend(row[..i], row[i..]);
  }

  /** Number of bytes the UTF-8 encoding of a rune takes (Go's utf8.RuneLen). */
  function Utf8Len(c: char): (n: nat)
    ensures 1 <= n <= 4
    ensures n == 1 <==> c as int < 0x80
  {
    if c as int < 0x80 then 1
    else if c as int < 0x800 then 2
    else if c as int < 0x10000 then 3
    else 4
  }

  /** Number of bytes the UTF-8 encoding of a whole string takes. */
  function Utf8Width(s: string): (n: nat)
    ensures n >= |s|
  {
    if s == [] then 0 else Utf8Width(s[..|s| - 1]) + Utf8Len(s[|s| - 1])
  }

  predicate IsAscii(s: string) {
    forall k :: 0 <= k < |s| ==> s[k] as int < 0x80
  }

  /** On ASCII text every rune is one byte, so byte offsets are rune indices. */
  lemma {:induction false} AsciiWidth(s: string)
    requires IsAscii(s)
    ensures Utf8Width(s) == |s|
    decreases |s|
  {
    if s != [] {
      AsciiWidth(s[..|s| - 1]);
    }
  }

  /** Number of occurrences of `x` in `s`. */
  function Occurrences<T(==)>(s: seq<T>, x: T): (n: nat)
    ensures n <= |s|
    ensures n == 0 <==> x !in s
  {
    if s == [] then 0
    else Occurrences(s[..|s| - 1], x) + (if s[|s| - 1] == x then 1 else 0)
  }

  /** Decimal rendering of a number, as Go's `%d` verb prints it. */
  function Decimal(n: int): (s: string)
    ensures |s| >= 1
    decreases if n < 0 then 1 - n else n
  {
    if n < 0 then "-" + Decimal(-n)
    else if n < 10 then [(48 + n) as char]
    else Decimal(n / 10) + [(48 + n % 10) as char]
  }
}
