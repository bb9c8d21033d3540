/**
 * The text key the direct simulator uses to recognise a board it has seen
 * before: the live cells sorted by x and then by y, each written "x,y", joined
 * by ";". The key is injective; the decoder below inverts it.
 */
module StateKey {
  import opened Life

  // ---------------------------------------------------------------------
  // Ordering of cells: by x, then by y

  predicate CellBefore(a: Cell, b: Cell) {
    a.x < b.x || (a.x == b.x && a.y < b.y)
  }

  predicate CellAtMost(a: Cell, b: Cell) {
    a == b || CellBefore(a, b)
  }

  predicate IsLeast(m: Cell, s: set<Cell>) {
    m in s && forall c :: c in s ==> CellAtMost(m, c)
  }

  lemma {:induction false} LeastExists(s: set<Cell>)
    requires s != {}
    ensures exists m :: IsLeast(m, s)
    decreases |s|
  {
    var c :| c in s;
    if s != {c} {
      LeastExists(s - {c});
      var m :| IsLeast(m, s - {c});
      if CellAtMost(m, c) {
        assert IsLeast(m, s);
      } else {
        assert CellBefore(c, m);
        forall d | d in s ensures CellAtMost(c, d) {
          if d != c {
            assert CellAtMost(m, d);
          }
        }
        assert IsLeast(c, s);
      }
    } else {
      assert IsLeast(c, s);
    }
  }

  predicate StrictlySorted(cells: seq<Cell>) {
    forall i, j :: 0 <= i < j < |cells| ==> CellBefore(cells[i], cells[j])
  }

  /** The cells of s in the order of OrderBy(X).ThenBy(Y). */
  function SortedCells(s: set<Cell>): (r: seq<Cell>)
    ensures |r| == |s|
    ensures forall c :: c in r <==> c in s
    ensures StrictlySorted(r)
    decreases |s|
  {
    if s == {} then []
    else
      LeastExists(s);
      var m :| IsLeast(m, s);
      var rest := SortedCells(s - {m});
      assert forall c :: c in rest ==> CellBefore(m, c);
      [m] + rest
  }

  // ---------------------------------------------------------------------
  // Decimal text of integers

  function DigitChar(d: nat): char
    requires d < 10
  {
    "0123456789"[d]
  }

  predicate IsDigit(ch: char) {
    '0' <= ch <= '9'
  }

  function NatText(n: nat): (t: string)
    ensures |t| > 0 && forall i :: 0 <= i < |t| ==> IsDigit(t[i])
  {
    if n < 10 then [DigitChar(n)] else NatText(n / 10) + [DigitChar(n % 10)]
  }

  /** The text C# writes for an int: an optional minus sign and the digits. */
  function IntText(i: int): (t: string)
    ensures |t| > 0 && ',' !in t && ';' !in t
  {
    if i < 0 then "-" + NatText(-i) else NatText(i)
  }

  function CellText(c: Cell): (t: string)
    ensures |t| > 0 && ';' !in t
  {
    IntText(c.x) + "," + IntText(c.y)
  }

  function CellTexts(cells: seq<Cell>): (r: seq<string>)
    ensures |r| == |cells|
  {
    if cells == [] then [] else [CellText(cells[0])] + CellTexts(cells[1..])
  }

  function Join(parts: seq<string>, sep: char): string {
    if parts == [] then ""
    else if |parts| == 1 then parts[0]
    else parts[0] + [sep] + Join(parts[1..], sep)
  }

  /** ComputeHashSetHash. */
  function ComputeHashSetHash(s: set<Cell>): string {
    Join(CellTexts(SortedCells(s)), ';')
  }

  // ---------------------------------------------------------------------
  // Decoding

  function DigitValue(ch: char): nat {
    if IsDigit(ch) then (ch as int) - ('0' as int) else 0
  }

  function DigitsValue(t: string): nat {
    if t == [] then 0 else DigitsValue(t[..|t| - 1]) * 10 + DigitValue(t[|t| - 1])
  }

  function ParseInt(t: string): int {
    if |t| > 0 && t[0] == '-' then -(DigitsValue(t[1..]) as int) else DigitsValue(t)
  }

  /** The index of the first occurrence of ch in t, or |t| if there is none. */
  function IndexOf(t: string, ch: char): (i: nat)
    ensures i <= |t|
  {
    if t == [] then 0 else if t[0] == ch then 0 else 1 + IndexOf(t[1..], ch)
  }

  function ParseCell(t: string): Cell {
    var i := IndexOf(t, ',');
    if i < |t| then Cell(ParseInt(t[..i]), ParseInt(t[i + 1..])) else Cell(ParseInt(t), 0)
  }

  function Split(t: string, sep: char): seq<string>
    decreases |t|
  {
    var i := IndexOf(t, sep);
    if i == |t| then [t] else [t[..i]] + Split(t[i + 1..], sep)
  }

  function ParseCells(parts: seq<string>): (r: seq<Cell>)
    ensures |r| == |parts|
  {
    if parts == [] then [] else [ParseCell(parts[0])] + ParseCells(parts[1..])
  }

  /** Reads a key back into the sorted list of cells. */
  function DecodeKey(key: string): seq<Cell> {
    if key == "" then [] else ParseCells(Split(key, ';'))
  }

  // ---------------------------------------------------------------------
  // Round trip

  lemma {:induction false} NatTextRoundTrip(n: nat)
    ensures DigitsValue(NatText(n)) == n
  {
    if n >= 10 {
      NatTextRoundTrip(n / 10);
      var t := NatText(n);
      assert t[..|t| - 1] == NatText(n / 10);
    }
  }

  lemma IntTextRoundTrip(i: int)
    ensures ParseInt(IntText(i)) == i
  {
    var t := IntText(i);
    if i < 0 {
      var digits := NatText(-i);
      assert t == "-" + digits;
      assert t[1..] == digits;
      NatTextRoundTrip(-i);
      assert ParseInt(t) == -(DigitsValue(digits) as int);
    } else {
      assert t == NatText(i) && IsDigit(t[0]);
      NatTextRoundTrip(i);
    }
  }

  lemma {:induction false} IndexOfPrefix(a: string, ch: char, b: string)
    requires ch !in a
    ensures IndexOf(a + [ch] + b, ch) == |a|
  {
    if a != [] {
      assert (a + [ch] + b)[1..] == a[1..] + [ch] + b;
      IndexOfPrefix(a[1..], ch, b);
    }
  }

  lemma {:induction false} IndexOfAbsent(a: string, ch: char)
    requires ch !in a
    ensures IndexOf(a, ch) == |a|
  {
    if a != [] {
      IndexOfAbsent(a[1..], ch);
    }
  }

  lemma CellTextRoundTrip(c: Cell)
    ensures ParseCell(CellText(c)) == c
  {
    var a, b := IntText(c.x), IntText(c.y);
    var t := CellText(c);
    assert t == a + [','] + b;
    IndexOfPrefix(a, ',', b);
    assert t[..|a|] == a;
    assert t[|a| + 1..] == b;
    IntTextRoundTrip(c.x);
    IntTextRoundTrip(c.y);
  }

  lemma {:induction false} SplitJoin(parts: seq<string>, sep: char)
    requires |parts| > 0
    requires forall i :: 0 <= i < |parts| ==> sep !in parts[i]
    ensures Split(Join(parts, sep), sep) == parts
  {
    if |parts| == 1 {
      IndexOfAbsent(parts[0], sep);
    } else {
      var rest := Join(parts[1..], sep);
      IndexOfPrefix(parts[0], sep, rest);
      var t := parts[0] + [sep] + rest;
      assert t[..|parts[0]|] == parts[0];
      assert t[|parts[0]| + 1..] == rest;
      SplitJoin(parts[1..], sep);
    }
  }

  lemma {:induction false} ParseCellTexts(cells: seq<Cell>)
    ensures ParseCells(CellTexts(cells)) == cells
  {
    if cells != [] {
      CellTextRoundTrip(cells[0]);
      ParseCellTexts(cells[1..]);
    }
  }

  lemma {:induction false} CellTextsMembers(cells: seq<Cell>, i: nat)
    requires i < |cells|
    ensures CellTexts(cells)[i] == CellText(cells[i])
  {
    if i > 0 {
      CellTextsMembers(cells[1..], i - 1);
    }
  }

  /** Decoding the key of a board gives back its cells in sorted order. */
  lemma KeyRoundTrip(s: set<Cell>)
    ensures DecodeKey(ComputeHashSetHash(s)) == SortedCells(s)
  {
    var cells := SortedCells(s);
    var parts := CellTexts(cells);
    if cells != [] {
      forall i | 0 <= i < |parts| ensures ';' !in parts[i] {
        CellTextsMembers(cells, i);
      }
      CellTextsMembers(cells, 0);
      assert |Join(parts, ';')| >= |parts[0]| > 0 by {
        if |parts| > 1 {
          assert Join(parts, ';') == parts[0] + [';'] + Join(parts[1..], ';');
        }
      }
      SplitJoin(parts, ';');
      ParseCellTexts(cells);
    }
  }

  /** Two boards with the same key are the same board. */
  lemma KeyInjective(a: set<Cell>, b: set<Cell>)
    requires ComputeHashSetHash(a) == ComputeHashSetHash(b)
    ensures a == b
  {
    KeyRoundTrip(a);
    KeyRoundTrip(b);
    assert forall c :: c in a <==> c in SortedCells(a);
  }
}
