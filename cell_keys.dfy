/** Cell keys of the Lights Out board.
    Every cell of the rendered table is identified by the string
    `${rowIdx}-${cellIdx}`; a click hands that string back to the board, which
    recovers the coordinate with `coord.split("-").map(Number)`.
    This module models the three string operations involved (the decimal
    rendering of an index, String.prototype.split with a one-character
    separator, and Number() on the pieces) and proves that decoding a key
    gives back the cell it was built from. */
module CellKeys {

  datatype Option<T> = None | Some(value: T)

  predicate IsDigit(ch: char) {
    '0' <= ch <= '9'
  }

  predicate AllDigits(s: string) {
    forall k :: 0 <= k < |s| ==> IsDigit(s[k])
  }

  function DigitChar(d: nat): (ch: char)
    requires d < 10
    ensures IsDigit(ch) && DigitValue(ch) == d
  {
    ('0' as int + d) as char
  }

  function DigitValue(ch: char): (d: nat)
    requires IsDigit(ch)
    ensures d < 10
  {
    ch as int - '0' as int
  }

  /** The decimal text of a non-negative integer, as a template literal
      renders an array index: at least one digit, no sign, and a leading
      '0' only for zero itself. */
  function Decimal(n: nat): (s: string)
    ensures 1 <= |s| && AllDigits(s)
    ensures s[0] == '0' <==> n == 0
    decreases n
  {
    if n < 10 then [DigitChar(n)] else Decimal(n / 10) + [DigitChar(n % 10)]
  }

  /** The value of a string of decimal digits, most significant digit first;
      the empty string is worth 0. */
  function DigitsValue(s: string): nat
    requires AllDigits(s)
    decreases |s|
  {
    if s == [] then 0 else DigitsValue(s[..|s| - 1]) * 10 + DigitValue(s[|s| - 1])
  }

  /** JavaScript's Number() on the pieces of a key: a string of decimal
      digits, the empty string included, gives its value; any other text
      gives NaN, written None. */
  function ToNumber(s: string): (n: Option<nat>)
    ensures s == "" ==> n == Some(0)
    ensures 1 <= |s| && s[0] == '0' ==> n == ToNumber(s[1..])
  {
    if AllDigits(s) then
      LeadingZero(s);
      Some(DigitsValue(s))
    else None
  }

  /** A leading zero does not change the value of a string of digits. */
  lemma {:induction false} LeadingZero(s: string)
    requires AllDigits(s)
    ensures 1 <= |s| && s[0] == '0' ==> DigitsValue(s) == DigitsValue(s[1..])
    decreases |s|
  {
    if 2 <= |s| && s[0] == '0' {
      var front := s[..|s| - 1];
      LeadingZero(front);
      assert front[1..] == s[1..][..|s[1..]| - 1];
    }
  }

  /** Reading back the decimal text of n gives n. */
  lemma {:induction false} DecimalRoundTrip(n: nat)
    ensures ToNumber(Decimal(n)) == Some(n)
  {
    var s := Decimal(n);
    if n < 10 {
      assert s[..|s| - 1] == [];
      assert DigitsValue(s) == DigitsValue([]) * 10 + DigitValue(s[0]);
    } else {
      assert s[..|s| - 1] == Decimal(n / 10);
      DecimalRoundTrip(n / 10);
    }
  }

  /** The inverse of Split: the pieces put back together with the separator
      between each two of them. */
  function Join(parts: seq<string>, sep: char): string
    decreases |parts|
  {
    if parts == [] then ""
    else if |parts| == 1 then parts[0]
    else parts[0] + [sep] + Join(parts[1..], sep)
  }

  /** `s.split(sep)` for a one-character separator: the maximal runs of
      text between separators, in order, empty runs included, so that a
      string with k separators gives k + 1 pieces. */
  function Split(s: string, sep: char): (parts: seq<string>)
    ensures |parts| >= 1
    ensures forall p :: p in parts ==> sep !in p
    ensures Join(parts, sep) == s
    decreases |s|
  {
    if s == [] then [""]
    else
      var rest := Split(s[1..], sep);
      if s[0] == sep then [""] + rest
      else [[s[0]] + rest[0]] + rest[1..]
  }

  /** Text without a separator only extends the first piece of what follows. */
  lemma {:induction false} SplitAfterPlain(a: string, t: string, sep: char)
    requires sep !in a
    ensures Split(a + t, sep) == [a + Split(t, sep)[0]] + Split(t, sep)[1..]
    decreases |a|
  {
    var tail := Split(t, sep);
    if a == [] {
      assert a + t == t && a + tail[0] == tail[0];
    } else {
      assert (a + t)[1..] == a[1..] + t;
      SplitAfterPlain(a[1..], t, sep);
      assert [a[0]] + (a[1..] + tail[0]) == a + tail[0];
    }
  }

  /** Splitting pieces that hold no separator, after joining them, gives
      the same pieces back. */
  lemma {:induction false} SplitJoin(parts: seq<string>, sep: char)
    requires |parts| >= 1
    requires forall k :: 0 <= k < |parts| ==> sep !in parts[k]
    ensures Split(Join(parts, sep), sep) == parts
    decreases |parts|
  {
    if |parts| == 1 {
      SplitAfterPlain(parts[0], "", sep);
      assert parts[0] + "" == parts[0];
    } else {
      var t := [sep] + Join(parts[1..], sep);
      assert Join(parts, sep) == parts[0] + t;
      SplitJoin(parts[1..], sep);
      assert t[1..] == Join(parts[1..], sep);
      assert Split(t, sep) == [""] + parts[1..];
      SplitAfterPlain(parts[0], t, sep);
      assert parts[0] + "" == parts[0];
    }
  }

  /** The key of the cell in row rowIdx, column cellIdx. */
  function CellKey(rowIdx: nat, cellIdx: nat): (key: string)
    ensures Split(key, '-') == [Decimal(rowIdx), Decimal(cellIdx)]
  {
    var a, b := Decimal(rowIdx), Decimal(cellIdx);
    assert '-' !in a && '-' !in b by {
      assert forall k :: 0 <= k < |a| ==> IsDigit(a[k]);
      assert forall k :: 0 <= k < |b| ==> IsDigit(b[k]);
    }
    SplitJoin([a, b], '-');
    a + "-" + b
  }

  /** `const [y, x] = coord.split("-").map(Number)`: the first two pieces,
      read as numbers. Pieces after the second are ignored. A missing second
      piece (undefined) or a piece that is not a number (NaN) gives None. */
  function DecodeKey(coord: string): (r: Option<(int, int)>)
    ensures r.Some? ==> r.value.0 >= 0 && r.value.1 >= 0
    ensures '-' !in coord ==> r.None?
  {
    var parts := Split(coord, '-');
    assert |parts| >= 2 ==> coord[|parts[0]|] == '-' by {
      if |parts| >= 2 {
        assert coord == parts[0] + ['-'] + Join(parts[1..], '-');
      }
    }
    if |parts| < 2 then None
    else
      match (ToNumber(parts[0]), ToNumber(parts[1]))
      case (Some(y), Some(x)) => Some((y, x))
      case _ => None
  }

  /** Decoding the key of a cell gives that cell's row and column. */
  lemma DecodeCellKey(rowIdx: nat, cellIdx: nat)
    ensures DecodeKey(CellKey(rowIdx, cellIdx)) == Some((rowIdx, cellIdx))
  {
    DecimalRoundTrip(rowIdx);
    DecimalRoundTrip(cellIdx);
  }

  /** Distinct cells have distinct keys. */
  lemma CellKeyInjective(r1: nat, c1: nat, r2: nat, c2: nat)
    requires CellKey(r1, c1) == CellKey(r2, c2)
    ensures r1 == r2 && c1 == c2
  {
    DecodeCellKey(r1, c1);
    DecodeCellKey(r2, c2);
  }
}
