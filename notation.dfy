/**
 * Move notation: text such as "E9-E6", a column letter A..I followed by a
 * 1-based row number, for the square a piece leaves and the square it
 * reaches.  Letters may be given in either case.
 */
module Notation {
  import opened Grid
  import opened Wrappers

  predicate IsDigit(c: char) { '0' <= c <= '9' }

  predicate IsAsciiLetter(c: char) { 'A' <= c <= 'Z' || 'a' <= c <= 'z' }

  /** The inputs this model covers: ASCII letters, ASCII digits and hyphens. */
  predicate IsMoveText(s: string) {
    forall i | 0 <= i < |s| :: IsAsciiLetter(s[i]) || IsDigit(s[i]) || s[i] == '-'
  }

  function UpperChar(c: char): char {
    if 'a' <= c <= 'z' then (c as int - 32) as char else c
  }

  /** str.upper() on ASCII text. */
  function Upper(s: string): (u: string)
    ensures |u| == |s|
    ensures forall i | 0 <= i < |s| :: u[i] == UpperChar(s[i])
  {
    seq(|s|, i requires 0 <= i < |s| => UpperChar(s[i]))
  }

  function CountChar(s: string, c: char): nat {
    if s == [] then 0 else (if s[0] == c then 1 else 0) + CountChar(s[1..], c)
  }

  /** str.split(sep): the pieces between separators, empty pieces included. */
  function Split(s: string, sep: char): (parts: seq<string>)
    ensures |parts| == CountChar(s, sep) + 1
  {
    if s == [] then [[]]
    else
      var rest := Split(s[1..], sep);
      if s[0] == sep then [[]] + rest
      else [[s[0]] + rest[0]] + rest[1..]
  }

  /** sep.join(parts). */
  function Join(parts: seq<string>, sep: char): string
    requires |parts| >= 1
  {
    if |parts| == 1 then parts[0] else parts[0] + [sep] + Join(parts[1..], sep)
  }

  /** Splitting loses nothing: joining the pieces gives the text back. */
  lemma {:induction false} SplitJoin(s: string, sep: char)
    ensures Join(Split(s, sep), sep) == s
    decreases |s|
  {
    if s != [] {
      SplitJoin(s[1..], sep);
      var rest := Split(s[1..], sep);
      if s[0] != sep {
        var parts := Split(s, sep);
        assert parts[0] == [s[0]] + rest[0] && parts[1..] == rest[1..];
        if |rest| > 1 {
          assert Join(rest, sep) == rest[0] + [sep] + Join(rest[1..], sep);
        }
        assert s == [s[0]] + s[1..];
      } else {
        assert Split(s, sep) == [[]] + rest;
        assert s == [sep] + s[1..];
      }
    }
  }

  /** Value of a run of decimal digits, most significant first. */
  function DigitsValue(s: string): nat
    requires forall i | 0 <= i < |s| :: IsDigit(s[i])
  {
    if s == [] then 0
    else
      var last := s[|s| - 1];
      assert IsDigit(last);
      DigitsValue(s[..|s| - 1]) * 10 + (last as int - '0' as int)
  }

  /** int(t) on ASCII text: defined exactly for a non-empty run of digits. */
  function ParseInt(t: string): (r: Option<int>)
    ensures r.Some? ==> r.value >= 0
  {
    if |t| > 0 && forall i | 0 <= i < |t| :: IsDigit(t[i]) then Some(DigitsValue(t)) else None
  }

  /** The source's col_map: 'A' + i maps to i for the nine columns. */
  function ColumnOf(c: char): (r: Option<int>)
    ensures r.Some? <==> 'A' <= c <= 'I'
    ensures r.Some? ==> 0 <= r.value < N && r.value + 65 == c as int
  {
    if 'A' <= c <= 'I' then Some(c as int - 'A' as int) else None
  }

  /** A square as parse_move accepts it: a column letter A..I followed by a non-empty run of
      digits. */
  predicate SquareText(t: string) {
    |t| >= 2 && 'A' <= t[0] <= 'I' && forall i | 1 <= i < |t| :: IsDigit(t[i])
  }

  /** One square: the row number after the letter is read first (an empty or non-numeric
      row fails), then the letter is looked up; the row is not range-checked. */
  function ParseSquare(t: string): (r: Option<Pos>)
    ensures r.Some? <==> SquareText(t)
    ensures r.Some? ==> r.value.col == t[0] as int - 'A' as int && r.value.row == DigitsValue(t[1..]) - 1
  {
    var row := ParseInt(if |t| == 0 then [] else t[1..]);
    if row.None? then None
    else
      var col := ColumnOf(t[0]);
      if col.None? then None else Some(Pos(row.value - 1, col.value))
  }

  /** The source's parse_move: None stands for its (None, None).  A text is accepted exactly
      when, once upper-cased, it is two squares joined by one hyphen; an empty part, a letter
      outside A..I, or a row that is empty or not all digits gives None.  What is accepted
      lands in a board column, on a row of at least -1 with no upper bound. */
  function ParseMove(s: string): (r: Option<(Pos, Pos)>)
    requires IsMoveText(s)
    ensures var parts := Split(Upper(s), '-');
      r.Some? <==> |parts| == 2 && SquareText(parts[0]) && SquareText(parts[1])
    ensures r.Some? ==> 0 <= r.value.0.col < N && 0 <= r.value.1.col < N && r.value.0.row >= -1 && r.value.1.row >= -1
  {
    var parts := Split(Upper(s), '-');
    if |parts| != 2 then None
    else
      var from, to := ParseSquare(parts[0]), ParseSquare(parts[1]);
      if from.Some? && to.Some? then Some((from.value, to.value)) else None
  }

  /** str(n). */
  function Decimal(n: nat): (s: string)
    ensures |s| >= 1 && forall i | 0 <= i < |s| :: IsDigit(s[i])
  {
    if n < 10 then [('0' as int + n) as char]
    else Decimal(n / 10) + [('0' as int + n % 10) as char]
  }

  lemma {:induction false} DecimalRoundTrip(n: nat)
    ensures DigitsValue(Decimal(n)) == n
  {
    if n >= 10 {
      DecimalRoundTrip(n / 10);
      var s := Decimal(n);
      assert s[..|s| - 1] == Decimal(n / 10);
    }
  }

  /** A square written as the console front end writes it: chr(col + 65) then str(row + 1). */
  function FormatSquare(p: Pos): (t: string)
    requires 0 <= p.col < N && p.row >= -1
    ensures |t| >= 2 && t[0] == (p.col + 65) as char && t[1..] == Decimal(p.row + 1)
  {
    [(p.col + 65) as char] + Decimal(p.row + 1)
  }

  function FormatMove(m: (Pos, Pos)): string
    requires 0 <= m.0.col < N && m.0.row >= -1
    requires 0 <= m.1.col < N && m.1.row >= -1
  {
    FormatSquare(m.0) + "-" + FormatSquare(m.1)
  }

  lemma {:induction false} ParseFormatSquare(p: Pos)
    requires 0 <= p.col < N && p.row >= -1
    ensures ParseSquare(FormatSquare(p)) == Some(p)
  {
    DecimalRoundTrip(p.row + 1);
  }

  /** Formatted moves read back as the same pair of squares, for every column on the board
      and every row from -1 upwards. */
  lemma {:induction false} ParseFormatMove(m: (Pos, Pos))
    requires 0 <= m.0.col < N && m.0.row >= -1
    requires 0 <= m.1.col < N && m.1.row >= -1
    ensures IsMoveText(FormatMove(m))
    ensures ParseMove(FormatMove(m)) == Some(m)
  {
    var s := FormatMove(m);
    var a, b := FormatSquare(m.0), FormatSquare(m.1);
    assert s == a + "-" + b;
    assert forall i | 0 <= i < |s| :: IsAsciiLetter(s[i]) || IsDigit(s[i]) || s[i] == '-' by {
      forall i | 0 <= i < |s|
        ensures IsAsciiLetter(s[i]) || IsDigit(s[i]) || s[i] == '-'
      {
        if i >= |a| + 1 {
          assert s[i] == b[i - |a| - 1];
        } else if i < |a| {
          assert s[i] == a[i];
        }
      }
    }
    assert Upper(s) == s;
    SplitTwo(a, b, '-');
    ParseFormatSquare(m.0);
    ParseFormatSquare(m.1);
  }

  /** Splitting two separator-free pieces joined by the separator gives back the pieces. */
  lemma {:induction false} SplitTwo(a: string, b: string, sep: char)
    requires sep !in a && sep !in b
    ensures Split(a + [sep] + b, sep) == [a, b]
    decreases |a|
  {
    if a == [] {
      assert [] + [sep] + b == [sep] + b;
      assert ([sep] + b)[1..] == b;
      SplitNone(b, sep);
    } else {
      SplitTwo(a[1..], b, sep);
      assert (a + [sep] + b)[1..] == a[1..] + [sep] + b;
      assert [a[0]] + a[1..] == a;
    }
  }

  lemma {:induction false} SplitNone(s: string, sep: char)
    requires sep !in s
    ensures Split(s, sep) == [s]
    decreases |s|
  {
    if s != [] {
      SplitNone(s[1..], sep);
      assert [s[0]] + s[1..] == s;
    }
  }

  /** A run of digits as str() writes it: a single digit, or no leading zero. */
  predicate NoLeadingZero(d: string) {
    |d| == 1 || (|d| > 1 && d[0] != '0')
  }

  lemma {:induction false} LeadingDigitPositive(d: string)
    requires |d| >= 1 && d[0] != '0' && forall i | 0 <= i < |d| :: IsDigit(d[i])
    ensures DigitsValue(d) >= 1
    decreases |d|
  {
    if |d| > 1 {
      LeadingDigitPositive(d[..|d| - 1]);
    } else {
      assert d[..0] == [];
    }
  }

  /** str() gives back the digits it is read from, when they have no leading zero. */
  lemma {:induction false} DecimalOfDigits(d: string)
    requires forall i | 0 <= i < |d| :: IsDigit(d[i])
    requires NoLeadingZero(d)
    ensures Decimal(DigitsValue(d)) == d
    decreases |d|
  {
    var e, c := d[..|d| - 1], d[|d| - 1];
    if |d| == 1 {
      assert e == [];
    } else {
      LeadingDigitPositive(e);
      DecimalOfDigits(e);
      var n := DigitsValue(d);
      assert n == DigitsValue(e) * 10 + (c as int - '0' as int);
      assert n / 10 == DigitsValue(e) && n % 10 == c as int - '0' as int;
      assert d == e + [c];
    }
  }

  /** Reading back: upper-case text that parses, with its rows written as str() writes
      them, is exactly the console loop's rendering of the move it parses to. */
  lemma {:induction false} FormatParseMove(s: string)
    requires IsMoveText(s) && Upper(s) == s
    requires forall k | 0 <= k < |Split(s, '-')| :: |Split(s, '-')[k]| < 2 || NoLeadingZero(Split(s, '-')[k][1..])
    requires ParseMove(s).Some?
    ensures FormatMove(ParseMove(s).value) == s
  {
    var parts := Split(s, '-');
    var a, b := parts[0], parts[1];
    var m := ParseMove(s).value;
    FormatSquareOf(a);
    FormatSquareOf(b);
    SplitJoin(s, '-');
    assert Join(parts, '-') == a + "-" + b by {
      assert parts[1..] == [b];
    }
  }

  /** A square's text is the rendering of the square it parses to, when its row has no
      leading zero. */
  lemma {:induction false} FormatSquareOf(t: string)
    requires SquareText(t) && NoLeadingZero(t[1..])
    ensures var p := ParseSquare(t).value; 0 <= p.col < N && p.row >= -1 && FormatSquare(p) == t
  {
    var p := ParseSquare(t).value;
    DecimalOfDigits(t[1..]);
    assert t == [t[0]] + t[1..];
  }

  /** Anything but exactly one hyphen is rejected. */
  lemma {:induction false} ParseMoveNeedsOneHyphen(s: string)
    requires IsMoveText(s)
    requires CountChar(Upper(s), '-') != 1
    ensures ParseMove(s) == None
  {
  }

  /** A letter followed by one digit. */
  lemma {:induction false} ShortSquare(c: char, d: char)
    requires IsDigit(d)
    ensures ParseSquare([c, d]) == if 'A' <= c <= 'I' then Some(Pos(d as int - '0' as int - 1, c as int - 'A' as int)) else None
  {
    assert [c, d][1..] == [d];
    assert DigitsValue([d]) == d as int - '0' as int by {
      assert [d][..0] == [];
    }
  }

  /** Lower case is accepted. */
  lemma ExampleLowerCase()
    ensures ParseMove("e9-e6") == Some((Pos(8, 4), Pos(5, 4)))
  {
    assert Upper("e9-e6") == ['E', '9'] + ['-'] + ['E', '6'];
    SplitTwo(['E', '9'], ['E', '6'], '-');
    ShortSquare('E', '9');
    ShortSquare('E', '6');
  }

  /** Row 0 is not refused: it reads as row -1. */
  lemma ExampleRowZero()
    ensures ParseMove("A0-A1") == Some((Pos(-1, 0), Pos(0, 0)))
  {
    assert Upper("A0-A1") == ['A', '0'] + ['-'] + ['A', '1'];
    SplitTwo(['A', '0'], ['A', '1'], '-');
    ShortSquare('A', '0');
    ShortSquare('A', '1');
  }

  /** A column letter past I is refused. */
  lemma ExampleBadColumn()
    ensures ParseMove("J1-A1") == None
  {
    assert Upper("J1-A1") == ['J', '1'] + ['-'] + ['A', '1'];
    SplitTwo(['J', '1'], ['A', '1'], '-');
    ShortSquare('J', '1');
  }

  /** A row that is not a number is refused. */
  lemma ExampleBadRow()
    ensures ParseMove("AB-A1") == None
  {
    assert Upper("AB-A1") == ['A', 'B'] + ['-'] + ['A', '1'];
    SplitTwo(['A', 'B'], ['A', '1'], '-');
    assert ['A', 'B'][1..] == ['B'];
  }

  /** An empty square is refused. */
  lemma ExampleEmptySquare()
    ensures ParseMove("A1-") == None
  {
    assert Upper("A1-") == ['A', '1'] + ['-'] + [];
    SplitTwo(['A', '1'], [], '-');
  }
}
