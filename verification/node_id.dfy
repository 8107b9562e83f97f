/** The string ids of LAB_03's `GraphNode` (`generateId`, lines 51-60 of
    PuzzleGraph.cpp): the cells in row-major order, each written in decimal
    as a `stringstream` writes an `int`, with "-" between consecutive cells.
    A negative cell brings its own minus sign, so the separator is not
    unambiguous at a glance; `Parse` reads an id back and shows that no two
    cell lists share one.  `StrLess` is `std::string`'s `<`. */
module NodeId {

  predicate IsDigit(c: char)
  {
    '0' <= c <= '9'
  }

  predicate AllDigits(s: string)
  {
    forall i | 0 <= i < |s| :: IsDigit(s[i])
  }

  function DigitChar(d: int): (c: char)
    requires 0 <= d < 10
    ensures IsDigit(c)
  {
    (d + '0' as int) as char
  }

  function DigitValue(c: char): (d: int)
    requires IsDigit(c)
    ensures 0 <= d < 10
  {
    c as int - '0' as int
  }

  /** The decimal digits of `n`, without leading zeros. */
  function NatStr(n: nat): (s: string)
    ensures |s| >= 1 && AllDigits(s)
  {
    if n < 10 then [DigitChar(n)] else NatStr(n / 10) + [DigitChar(n % 10)]
  }

  /** The number a string of digits denotes. */
  function ReadNat(s: string): nat
    requires AllDigits(s)
  {
    if |s| == 0 then 0 else ReadNat(s[..|s| - 1]) * 10 + DigitValue(s[|s| - 1])
  }

  lemma {:induction false} ReadNatStr(n: nat)
    ensures ReadNat(NatStr(n)) == n
  {
    if n >= 10 {
      ReadNatStr(n / 10);
      var s := NatStr(n);
      assert s[..|s| - 1] == NatStr(n / 10);
    }
  }

  /** How an `int` is written: an optional minus sign, then its digits. */
  function Show(n: int): (s: string)
    ensures |s| >= 1 && IsDigit(s[|s| - 1])
  {
    if n < 0 then "-" + NatStr(-n) else NatStr(n)
  }

  /** The id of a list of cells: each cell shown, "-" before all but the
      first. */
  function IdOf(cells: seq<int>): (s: string)
    ensures |cells| >= 1 ==> |s| >= 1 && IsDigit(s[|s| - 1])
    ensures |cells| == 0 ==> s == ""
  {
    if |cells| == 0 then ""
    else if |cells| == 1 then Show(cells[0])
    else IdOf(cells[..|cells| - 1]) + "-" + Show(cells[|cells| - 1])
  }

  /** The length of the run of digits that ends `s`. */
  function Trail(s: string): (t: nat)
    ensures t <= |s|
    ensures forall i | |s| - t <= i < |s| :: IsDigit(s[i])
  {
    if |s| == 0 || !IsDigit(s[|s| - 1]) then 0 else Trail(s[..|s| - 1]) + 1
  }

  lemma {:induction false} TrailAppend(x: string, y: string)
    requires AllDigits(y)
    requires |x| == 0 || !IsDigit(x[|x| - 1])
    ensures Trail(x + y) == |y|
    decreases |y|
  {
    if |y| > 0 {
      assert (x + y)[..|x + y| - 1] == x + y[..|y| - 1];
      TrailAppend(x, y[..|y| - 1]);
    }
  }

  /** Reads an id back into its cells, last cell first: the final run of
      digits is the last cell. */
  function Parse(s: string): seq<int>
    decreases |s|, 1
  {
    var t := Trail(s);
    if t == 0 then [] else Attach(s[..|s| - t], ReadNat(s[|s| - t..]))
  }

  /** The cells of an id whose last cell has magnitude `d` and is preceded
      by `rest`: a minus sign beyond the separator makes it negative. */
  function Attach(rest: string, d: int): seq<int>
    decreases |rest|, 0
  {
    if rest == "" then [d]
    else if rest == "-" then [-d]
    else if |rest| >= 3 && rest[|rest| - 2..] == "--" then Parse(rest[..|rest| - 2]) + [-d]
    else Parse(rest[..|rest| - 1]) + [d]
  }

  /** Parsing reads the final digits as the last cell's magnitude. */
  lemma ParseSplit(p: string, digits: string)
    requires |p| == 0 || !IsDigit(p[|p| - 1])
    requires |digits| >= 1 && AllDigits(digits)
    ensures Parse(p + digits) == Attach(p, ReadNat(digits))
  {
    TrailAppend(p, digits);
    var s := p + digits;
    assert s[|s| - |digits|..] == digits;
    assert s[..|s| - |digits|] == p;
  }

  /** A single cell parses back. */
  lemma ParseSingle(c: int)
    ensures Parse(Show(c)) == [c]
  {
    if c < 0 {
      var digits := NatStr(-c);
      ReadNatStr(-c);
      var d: int := ReadNat(digits);
      assert d == -c;
      ParseSplit("-", digits);
      assert Attach("-", d) == [-d];
    } else {
      var digits := NatStr(c);
      ReadNatStr(c);
      var d := ReadNat(digits);
      assert d == c;
      ParseSplit("", digits);
      assert "" + digits == Show(c);
      assert Attach("", d) == [d];
    }
  }

  lemma AttachNat(id: string, d: int)
    requires |id| >= 1 && IsDigit(id[|id| - 1])
    ensures Attach(id + "-", d) == Parse(id) + [d]
  {
    var rest := id + "-";
    assert rest[|rest| - 2..] != "--" by {
      assert rest[|rest| - 2] == id[|id| - 1];
    }
    assert rest[..|rest| - 1] == id;
  }

  lemma AttachNeg(id: string, d: int)
    requires |id| >= 1
    ensures Attach(id + "--", d) == Parse(id) + [-d]
  {
    var rest := id + "--";
    assert rest[|rest| - 2..] == "--";
    assert rest[..|rest| - 2] == id;
  }

  /** A non-negative last cell follows a plain separator. */
  lemma ParseNextNat(id: string, c: int)
    requires c >= 0 && |id| >= 1 && IsDigit(id[|id| - 1])
    ensures Parse(id + "-" + Show(c)) == Parse(id) + [c]
  {
    ReadNatStr(c);
    ParseSplit(id + "-", NatStr(c));
    AttachNat(id, c);
  }

  lemma NegShape(id: string, c: int)
    requires c < 0
    ensures id + "-" + Show(c) == id + "--" + NatStr(-c)
  {
    var digits := NatStr(-c);
    assert Show(c) == "-" + digits;
    SeqAssoc(id + "-", "-", digits);
    assert id + "-" + "-" == id + "--";
  }

  /** A negative last cell's sign follows the separator. */
  lemma ParseNextNeg(id: string, c: int)
    requires c < 0 && |id| >= 1
    ensures Parse(id + "-" + Show(c)) == Parse(id) + [c]
  {
    var digits := NatStr(-c);
    NegShape(id, c);
    ReadNatStr(-c);
    var d := ReadNat(digits);
    assert d == -c;
    ParseSplit(id + "--", digits);
    AttachNeg(id, d);
  }

  lemma SeqAssoc(a: string, b: string, c: string)
    ensures a + (b + c) == a + b + c
  {
  }

  lemma IdOfSnoc(init: seq<int>, c: int)
    requires |init| >= 1
    ensures IdOf(init + [c]) == IdOf(init) + "-" + Show(c)
  {
    assert (init + [c])[..|init|] == init;
  }

  /** Writing one more cell. */
  lemma IdStep(cells: seq<int>, c: int)
    ensures IdOf(cells + [c]) == IdOf(cells) + (if |cells| > 0 then "-" else "") + Show(c)
  {
    if |cells| > 0 {
      IdOfSnoc(cells, c);
    } else {
      assert cells + [c] == [c];
    }
  }

  /** Parsing an id gives back its cells. */
  lemma {:induction false} ParseId(cells: seq<int>)
    requires |cells| >= 1
    ensures Parse(IdOf(cells)) == cells
    decreases |cells|
  {
    var c := cells[|cells| - 1];
    if |cells| == 1 {
      assert cells == [c];
      ParseSingle(c);
    } else {
      var init := cells[..|cells| - 1];
      assert cells == init + [c];
      IdOfSnoc(init, c);
      ParseId(init);
      if c < 0 {
        ParseNextNeg(IdOf(init), c);
      } else {
        ParseNextNat(IdOf(init), c);
      }
    }
  }

  /** Two cell lists have the same id exactly when they are equal. */
  lemma IdInjective(a: seq<int>, b: seq<int>)
    ensures IdOf(a) == IdOf(b) <==> a == b
  {
    if |a| >= 1 && |b| >= 1 {
      ParseId(a);
      ParseId(b);
    }
  }

  /** `std::string`'s `<`: lexicographic by character, a proper prefix
      first. */
  predicate StrLess(a: string, b: string)
    decreases |a|
  {
    if |a| == 0 then |b| > 0
    else |b| > 0 && (a[0] < b[0] || (a[0] == b[0] && StrLess(a[1..], b[1..])))
  }

  lemma {:induction false} StrLessIrreflexive(a: string)
    ensures !StrLess(a, a)
    decreases |a|
  {
    if |a| > 0 {
      StrLessIrreflexive(a[1..]);
    }
  }

  lemma {:induction false} StrLessTransitive(a: string, b: string, c: string)
    requires StrLess(a, b) && StrLess(b, c)
    ensures StrLess(a, c)
    decreases |a|
  {
    if |a| > 0 && a[0] == b[0] && b[0] == c[0] {
      StrLessTransitive(a[1..], b[1..], c[1..]);
    }
  }

  /** Of two different strings one is less than the other. */
  lemma {:induction false} StrLessTotal(a: string, b: string)
    ensures a == b || StrLess(a, b) || StrLess(b, a)
    decreases |a|
  {
    if |a| > 0 && |b| > 0 && a[0] == b[0] {
      StrLessTotal(a[1..], b[1..]);
      if a[1..] == b[1..] {
        assert a == [a[0]] + a[1..] && b == [b[0]] + b[1..];
      }
    }
  }
}
