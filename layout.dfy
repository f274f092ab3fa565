/** The rendering half of `disp()`, which both progress-bar headers share up to the integer
    type of the percentage cast (unsigned in one, `int` in the other; they agree on [0, 100]):
    the layout constants, the geometry derived from the terminal width, the percentage and
    head position computed from the counter, and the text of one frame.

    The source computes `progress` and `position` in `double`; here they are exact reals,
    and `std::round` on a non-negative value is `floor(x + 1/2)`. */
module Layout {

  import opened Ints

  /** Below this many columns the elapsed-time suffix is dropped. */
  const MIN_LINE_LENGTH: nat := 50
  /** Columns reserved for the elapsed-time suffix when it is shown. */
  const TIME_OUTPUT_LENGTH: nat := 20
  /** Columns reserved for `[`, `] `, the three-digit percentage and `%`. */
  const MISC_SYMBOLS_LENGTH: nat := 7

  // ---------------------------------------------------------------------------
  // Geometry

  /** `term_width() * width / 100`, where the product is a `std::size_t` and wraps. */
  function LineLength(termWidth: nat, width: nat): (n: nat)
    ensures termWidth * width < SIZE_LIMIT ==> n * 100 <= termWidth * width < n * 100 + 100
  {
    (termWidth * width) % SIZE_LIMIT / 100
  }

  /** Whether the time suffix survives the layout step: it is cleared on a narrow line. */
  predicate KeepsTime(showTime: bool, lineLength: nat)
    ensures KeepsTime(showTime, lineLength) ==> showTime
    ensures lineLength < MIN_LINE_LENGTH ==> !KeepsTime(showTime, lineLength)
  {
    showTime && MIN_LINE_LENGTH <= lineLength
  }

  /** `bar_length`: the line length, less the time field on a wide line, less the
      fixed symbols. Below `MISC_SYMBOLS_LENGTH` the unsigned subtraction would wrap,
      so that case is excluded. */
  function BarLength(lineLength: nat): (n: nat)
    requires MISC_SYMBOLS_LENGTH <= lineLength
    ensures n + MISC_SYMBOLS_LENGTH
              + (if KeepsTime(true, lineLength) then TIME_OUTPUT_LENGTH else 0) == lineLength
  {
    if lineLength < MIN_LINE_LENGTH then lineLength - MISC_SYMBOLS_LENGTH
    else lineLength - TIME_OUTPUT_LENGTH - MISC_SYMBOLS_LENGTH
  }

  // ---------------------------------------------------------------------------
  // Percentage and head position

  /** `progress`: exactly 100 when the counter is at its maximum, otherwise the share of
      the range covered so far, in percent. `done` is `current - min`, `total` is `max - min`. */
  function Progress(done: nat, total: nat): (p: real)
    requires 0 < total && done <= total
    ensures 0.0 <= p <= 100.0
    ensures p == 100.0 <==> done == total
  {
    if done == total then 100.0
    else
      ProgressRatio(done, total);
      done as real / (total as real / 100.0)
  }

  /** The percentage is the exact ratio `100 * done / total`. */
  lemma ProgressRatio(done: nat, total: nat)
    requires 0 < total && done < total
    ensures done as real / (total as real / 100.0) == (100 * done) as real / total as real
    ensures (100 * done) as real / total as real < 100.0
  {
    var t := total as real;
    var d := done as real;
    assert (100 * done) as real == 100.0 * d;
    assert d / (t / 100.0) == 100.0 * d / t;
    assert 100.0 * d < 100.0 * t;
  }

  /** `std::round` on a non-negative argument: halves round up. */
  function Round(x: real): (n: nat)
    requires 0.0 <= x
    ensures n as real <= x + 0.5 < n as real + 1.0
  {
    (x + 0.5).Floor
  }

  /** The truncated percentage that is printed: `static_cast` of `progress`. */
  function Percent(done: nat, total: nat): (n: nat)
    requires 0 < total && done <= total
    ensures n <= 100
    ensures n == 100 <==> done == total
  {
    var p := Progress(done, total);
    assert p.Floor as real <= p < p.Floor as real + 1.0;
    p.Floor
  }

  /** `position`: the last cell when `progress` is 100, otherwise the rounded share of
      `barLength`. */
  function Position(done: nat, total: nat, barLength: nat): (n: nat)
    requires 0 < total && done <= total
    ensures n <= barLength
    ensures done == total ==> n == barLength
  {
    var p := Progress(done, total);
    if p == 100.0 then barLength
    else
      var x := p * (barLength as real / 100.0);
      assert x <= barLength as real by {
        assert x == (p / 100.0) * barLength as real;
        assert p / 100.0 <= 1.0;
      }
      Round(x)
  }

  /** Integer division agrees with the floor of the exact quotient. */
  lemma FloorOfQuotient(a: nat, b: nat)
    requires 0 < b
    ensures (a as real / b as real).Floor == a / b
  {
    var q := a / b;
    assert q * b <= a < (q + 1) * b;
    QuotientAbove(q, a, b);
    QuotientBelow(q + 1, a, b);
  }

  lemma QuotientAbove(n: nat, a: nat, b: nat)
    requires 0 < b && n * b <= a
    ensures n as real <= a as real / b as real
  {
    assert (n * b) as real == n as real * b as real;
  }

  lemma QuotientBelow(n: nat, a: nat, b: nat)
    requires 0 < b && a < n * b
    ensures a as real / b as real < n as real
  {
    assert (n * b) as real == n as real * b as real;
  }

  /** The printed percentage is the integer quotient `100 * done / total`. */
  lemma PercentIsTruncatedRatio(done: nat, total: nat)
    requires 0 < total && done <= total
    ensures Percent(done, total) == 100 * done / total
  {
    if done < total {
      PercentBeforeCompletion(done, total);
    } else {
      HundredFold(total);
    }
  }

  lemma PercentBeforeCompletion(done: nat, total: nat)
    requires 0 < total && done < total
    ensures Percent(done, total) == 100 * done / total
  {
    ProgressRatio(done, total);
    assert Progress(done, total) == (100 * done) as real / total as real;
    FloorOfQuotient(100 * done, total);
  }

  lemma HundredFold(total: nat)
    requires 0 < total
    ensures 100 * total / total == 100
  {
    DivBelow(100 * total, total, 101);
    DivAtLeast(100 * total, total, 100);
  }

  lemma DivAtLeast(a: nat, b: nat, k: nat)
    requires 0 < b && k * b <= a
    ensures k <= a / b
  {
    var q := a / b;
    assert a < (q + 1) * b;
    MulCancel(k, q + 1, b);
  }

  /** Before completion the head sits at `done * barLength / total` rounded half up. */
  lemma PositionIsRoundedRatio(done: nat, total: nat, barLength: nat)
    requires 0 < total && done < total
    ensures Position(done, total, barLength) == (2 * (done * barLength) + total) / (2 * total)
  {
    ProgressRatio(done, total);
    var d, t, b := done as real, total as real, barLength as real;
    var p := (100 * done) as real / t;
    assert p * t == 100.0 * d;
    var x := p * (b / 100.0);
    assert x * t == d * b by {
      assert x * t == (p * t) * b / 100.0;
    }
    var num, den := 2 * (done * barLength) + total, 2 * total;
    assert (x + 0.5) * den as real == num as real;
    QuotientUnique(x + 0.5, num, den);
    FloorOfQuotient(num, den);
  }

  lemma QuotientUnique(x: real, num: nat, den: nat)
    requires 0 < den && x * den as real == num as real
    ensures x == num as real / den as real
  {
  }

  lemma MulMonotone(x: nat, y: nat, c: nat)
    requires x <= y
    ensures x * c <= y * c
  {
  }

  lemma DivBelow(a: nat, b: nat, k: nat)
    requires 0 < b && a < k * b
    ensures a / b < k
  {
  }

  lemma DivMonotone(a: nat, a': nat, b: nat)
    requires 0 < b && a <= a'
    ensures a / b <= a' / b
  {
    var q, q' := a / b, a' / b;
    assert q * b <= a && a' < (q' + 1) * b;
    MulCancel(q, q' + 1, b);
  }

  lemma MulCancel(x: nat, y: nat, c: nat)
    requires x * c < y * c
    ensures x < y
  {
  }

  /** As the counter advances the head never moves back. */
  lemma PositionMonotone(done: nat, done': nat, total: nat, barLength: nat)
    requires 0 < total && done <= done' <= total
    ensures Position(done, total, barLength) <= Position(done', total, barLength)
  {
    if done' < total {
      PositionIsRoundedRatio(done, total, barLength);
      PositionIsRoundedRatio(done', total, barLength);
      MulMonotone(done, done', barLength);
      DivMonotone(2 * (done * barLength) + total, 2 * (done' * barLength) + total, 2 * total);
    }
  }

  /** Rounding lets the head reach the last cell one step before completion, while the
      percentage still reads 99. */
  lemma HeadReachesEndEarly()
    ensures Position(999, 1000, 10) == 10 && Percent(999, 1000) == 99
  {
    PositionIsRoundedRatio(999, 1000, 10);
    PercentIsTruncatedRatio(999, 1000);
  }

  // ---------------------------------------------------------------------------
  // Text

  function Repeat(c: char, n: nat): (s: string)
    ensures |s| == n
    ensures forall i :: 0 <= i < n ==> s[i] == c
  {
    if n == 0 then [] else [c] + Repeat(c, n - 1)
  }

  /** How many times `c` occurs in `s`. */
  function Occurrences(s: string, c: char): nat {
    if s == [] then 0 else (if s[0] == c then 1 else 0) + Occurrences(s[1..], c)
  }

  lemma {:induction false} OccurrencesConcat(a: string, b: string, c: char)
    ensures Occurrences(a + b, c) == Occurrences(a, c) + Occurrences(b, c)
  {
    if a == [] {
      assert a + b == b;
    } else {
      assert (a + b)[1..] == a[1..] + b;
      OccurrencesConcat(a[1..], b, c);
    }
  }

  lemma {:induction false} OccurrencesAbsent(s: string, c: char)
    requires forall i :: 0 <= i < |s| ==> s[i] != c
    ensures Occurrences(s, c) == 0
  {
    if s != [] {
      OccurrencesAbsent(s[1..], c);
    }
  }

  /** Cell `i` of the bar: fill before the head, the head itself, blank after it. */
  function Cell(i: int, position: nat): (c: char)
    ensures c == '>' <==> i == position
    ensures c == '-' <==> i < position
  {
    if i < position then '-' else if i == position then '>' else ' '
  }

  /** The bar body: `barLength + 1` cells, as the loop `for (i = 0; i <= bar_length; ++i)` writes them. */
  function Bar(barLength: nat, position: nat): (cells: string)
    ensures |cells| == barLength + 1
    ensures forall i :: 0 <= i <= barLength ==> (cells[i] == '>' <==> i == position)
  {
    seq(barLength + 1, i => Cell(i, position))
  }

  /** The loop that writes the bar body into the string stream. */
  method RenderBar(barLength: nat, position: nat) returns (cells: string)
    ensures cells == Bar(barLength, position)
  {
    cells := "";
    for i := 0 to barLength + 1
      invariant cells == Bar(barLength, position)[..i]
    {
      if i < position {
        cells := cells + "-";
      } else if i == position {
        cells := cells + ">";
      } else {
        cells := cells + " ";
      }
    }
  }

  /** A bar whose head is inside it is `position` fills, one head, and blanks up to the end. */
  lemma BarDecomposition(barLength: nat, position: nat)
    requires position <= barLength
    ensures Bar(barLength, position)
         == Repeat('-', position) + ">" + Repeat(' ', barLength - position)
  {
    var rhs := Repeat('-', position) + ">" + Repeat(' ', barLength - position);
    forall i | 0 <= i <= barLength
      ensures Bar(barLength, position)[i] == rhs[i]
    {
      if i > position {
        assert rhs[i] == Repeat(' ', barLength - position)[i - position - 1];
      }
    }
  }

  /** Exactly one head marker, at `position`. */
  lemma BarHasOneHead(barLength: nat, position: nat)
    requires position <= barLength
    ensures Bar(barLength, position)[position] == '>'
    ensures Occurrences(Bar(barLength, position), '>') == 1
  {
    BarDecomposition(barLength, position);
    OccurrencesAbsent(Repeat('-', position), '>');
    OccurrencesAbsent(Repeat(' ', barLength - position), '>');
    OccurrencesConcat(Repeat('-', position), ">", '>');
    OccurrencesConcat(Repeat('-', position) + ">", Repeat(' ', barLength - position), '>');
    assert Occurrences(">", '>') == 1 by {
      assert ">"[1..] == [];
    }
  }

  predicate IsDigit(c: char) {
    '0' <= c <= '9'
  }

  function DigitChar(d: nat): (c: char)
    requires d < 10
    ensures IsDigit(c)
  {
    ('0' as int + d) as char
  }

  /** The decimal form `operator<<` writes for a non-negative integer. */
  function Decimal(n: nat): (s: string)
    ensures 1 <= |s|
    ensures forall i :: 0 <= i < |s| ==> IsDigit(s[i])
  {
    if n < 10 then [DigitChar(n)] else Decimal(n / 10) + [DigitChar(n % 10)]
  }

  /** Reads a string of digits back as a number. */
  function ParseDecimal(s: string): nat
    requires forall i :: 0 <= i < |s| ==> IsDigit(s[i])
  {
    if s == [] then 0
    else
      assert IsDigit(s[|s| - 1]);
      ParseDecimal(s[..|s| - 1]) * 10 + (s[|s| - 1] as int - '0' as int)
  }

  lemma {:induction false} DecimalRoundTrip(n: nat)
    ensures ParseDecimal(Decimal(n)) == n
  {
    if n >= 10 {
      var s := Decimal(n);
      assert s[..|s| - 1] == Decimal(n / 10);
      DecimalRoundTrip(n / 10);
    }
  }

  lemma {:induction false} DecimalWidth(n: nat)
    ensures n < 10 ==> |Decimal(n)| == 1
    ensures 10 <= n < 100 ==> |Decimal(n)| == 2
    ensures 100 <= n < 1000 ==> |Decimal(n)| == 3
  {
    if n >= 10 {
      DecimalWidth(n / 10);
    }
  }

  /** `std::setw(w)` with the default fill: pad on the left with blanks to at least `w`. */
  function PadLeft(s: string, w: nat): (r: string)
    ensures |r| == if |s| < w then w else |s|
    ensures forall i :: 0 <= i < |r| - |s| ==> r[i] == ' '
    ensures r == Repeat(' ', |r| - |s|) + s
  {
    if |s| < w then Repeat(' ', w - |s|) + s else s
  }

  /** Drops leading blanks. */
  function TrimLeft(s: string): string {
    if s != [] && s[0] == ' ' then TrimLeft(s[1..]) else s
  }

  lemma {:induction false} TrimLeftBlanks(k: nat, s: string)
    requires s != [] && s[0] != ' '
    ensures TrimLeft(Repeat(' ', k) + s) == s
  {
    if k > 0 {
      assert (Repeat(' ', k) + s)[1..] == Repeat(' ', k - 1) + s;
      TrimLeftBlanks(k - 1, s);
    } else {
      assert Repeat(' ', k) + s == s;
    }
  }

  /** The percentage field: `std::setw(3) << percent`. */
  function PercentField(percent: nat): (s: string)
    requires percent <= 100
    ensures |s| == 3
    ensures forall i :: 0 <= i < 3 ==> IsDigit(s[i]) || s[i] == ' '
  {
    DecimalWidth(percent);
    PadLeft(Decimal(percent), 3)
  }

  /** The percentage field is the decimal number right-aligned in three columns, and it
      reads back as that number. */
  lemma PercentFieldRoundTrip(percent: nat)
    requires percent <= 100
    ensures TrimLeft(PercentField(percent)) == Decimal(percent)
    ensures ParseDecimal(TrimLeft(PercentField(percent))) == percent
  {
    var d := Decimal(percent);
    DecimalWidth(percent);
    assert PercentField(percent) == PadLeft(d, 3);
    assert IsDigit(d[0]);
    if |d| < 3 {
      assert PadLeft(d, 3) == Repeat(' ', 3 - |d|) + d;
      TrimLeftBlanks(3 - |d|, d);
    } else {
      assert PadLeft(d, 3) == d;
      assert TrimLeft(d) == d;
    }
    DecimalRoundTrip(percent);
  }

  /** One frame without the time suffix: `[`, the bar, `] `, the percentage field, `%`. */
  function Frame(done: nat, total: nat, barLength: nat): (line: string)
    requires 0 < total && done <= total
    ensures |line| == barLength + 8
  {
    "[" + Bar(barLength, Position(done, total, barLength)) + "] "
      + PercentField(Percent(done, total)) + "%"
  }

  /** The string stream `disp()` fills: `[`, the bar loop, `] `, the percentage, `%`. */
  method RenderFrame(done: nat, total: nat, barLength: nat) returns (line: string)
    requires 0 < total && done <= total
    ensures line == Frame(done, total, barLength)
  {
    var position := Position(done, total, barLength);
    var cells := RenderBar(barLength, position);
    line := "[" + cells + "] " + PercentField(Percent(done, total)) + "%";
  }

  /** The percentage field of a frame reads back as `100 * done / total`; it reads `100`
      exactly at completion. */
  lemma FrameReportsPercent(done: nat, total: nat, barLength: nat)
    requires 0 < total && done <= total
    ensures Frame(done, total, barLength)[barLength + 4..barLength + 7]
         == PercentField(Percent(done, total))
    ensures TrimLeft(Frame(done, total, barLength)[barLength + 4..barLength + 7])
         == Decimal(Percent(done, total))
    ensures ParseDecimal(TrimLeft(Frame(done, total, barLength)[barLength + 4..barLength + 7]))
         == 100 * done / total
    ensures Frame(done, total, barLength)[barLength + 4..barLength + 7] == "100" <==> done == total
  {
    var percent := Percent(done, total);
    var field := PercentField(percent);
    PercentFieldRoundTrip(percent);
    PercentIsTruncatedRatio(done, total);
    DecimalWidth(percent);
    if done == total {
      assert Decimal(100) == "100";
    } else {
      assert field[0] == ' ';
      assert field != "100";
    }
  }

  /** Every frame shows exactly one head marker, inside the bar. */
  lemma FrameHasOneHead(done: nat, total: nat, barLength: nat)
    requires 0 < total && done <= total
    ensures Occurrences(Frame(done, total, barLength), '>') == 1
  {
    var position := Position(done, total, barLength);
    BarHasOneHead(barLength, position);
    var field := PercentField(Percent(done, total));
    OccurrencesAbsent("[", '>');
    OccurrencesAbsent("] ", '>');
    OccurrencesAbsent(field, '>');
    OccurrencesAbsent("%", '>');
    var bar := Bar(barLength, position);
    OccurrencesConcat("[", bar, '>');
    OccurrencesConcat("[" + bar, "] ", '>');
    OccurrencesConcat("[" + bar + "] ", field, '>');
    OccurrencesConcat("[" + bar + "] " + field, "%", '>');
  }

  /** At completion the frame is a full bar ending in the head, and `100%`. */
  lemma CompletedFrame(total: nat, barLength: nat)
    requires 0 < total
    ensures Frame(total, total, barLength) == "[" + Repeat('-', barLength) + ">] 100%"
  {
    assert Position(total, total, barLength) == barLength;
    assert Percent(total, total) == 100;
    assert PercentField(100) == "100" by {
      assert Decimal(100) == "100";
    }
    BarDecomposition(barLength, barLength);
    assert Repeat(' ', 0) == [];
    var bar := Repeat('-', barLength) + ">";
    assert Bar(barLength, barLength) == bar;
    assert Frame(total, total, barLength) == "[" + bar + "] " + "100" + "%";
  }

  /** A frame is one column wider than `line_length` after the time field is taken off:
      the loop writes `bar_length + 1` cells against `MISC_SYMBOLS_LENGTH` reserved columns. */
  lemma FrameWidth(done: nat, total: nat, lineLength: nat)
    requires 0 < total && done <= total
    requires MISC_SYMBOLS_LENGTH <= lineLength
    ensures lineLength < MIN_LINE_LENGTH ==>
              |Frame(done, total, BarLength(lineLength))| == lineLength + 1
    ensures MIN_LINE_LENGTH <= lineLength ==>
              |Frame(done, total, BarLength(lineLength))| == lineLength - TIME_OUTPUT_LENGTH + 1
  {
  }
}
