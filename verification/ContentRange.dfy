/** The Content-Range header of a partial PUT (`putrange.go`), down to its digits. */
module ContentRange {
  import opened Wrappers

  const MAX_INT64 := 0x7fff_ffff_ffff_ffff
  const TWO_63 := 0x8000_0000_0000_0000
  const TWO_64 := 0x1_0000_0000_0000_0000

  /** Two's complement: what an int64 holds after arithmetic that may overflow. */
  function Wrap64(n: int): (r: int)
    ensures -TWO_63 <= r <= MAX_INT64
    ensures -TWO_63 <= n <= MAX_INT64 ==> r == n
  {
    (n + TWO_63) % TWO_64 - TWO_63
  }

  lemma WrapByRemainder(n: int)
    ensures Wrap64(n) == if n % TWO_64 < TWO_63 then n % TWO_64 else n % TWO_64 - TWO_64
  {
    var q, r := n / 0x1_0000_0000_0000_0000, n % 0x1_0000_0000_0000_0000;
    assert n == q * 0x1_0000_0000_0000_0000 + r;
    var s := if r < TWO_63 then r + TWO_63 else r - TWO_63;
    var p := if r < TWO_63 then q else q + 1;
    assert n + TWO_63 == p * 0x1_0000_0000_0000_0000 + s && 0 <= s < TWO_64;
  }

  // -------------------------------------------------------------------------
  // Decimal numbers, as strconv reads them
  // -------------------------------------------------------------------------

  predicate IsDigit(c: char) {
    '0' <= c <= '9'
  }

  predicate AllDigits(s: string) {
    s != "" && forall c | c in s :: IsDigit(c)
  }

  function DigitsValue(s: string): nat
    requires forall c | c in s :: IsDigit(c)
  {
    if s == "" then 0
    else
      var last := s[|s| - 1];
      assert IsDigit(last);
      DigitsValue(s[..|s| - 1]) * 10 + (last as int - '0' as int)
  }

  /** strconv.ParseInt(s, 10, 64): an optional sign, then digits, within an int64. */
  function ParseInt64(s: string): Option<int> {
    if s == "" then None
    else
      var signed := s[0] == '+' || s[0] == '-';
      var digits := if signed then s[1..] else s;
      if !AllDigits(digits) then None
      else
        var n: int := DigitsValue(digits);
        if s[0] == '-' then (if n <= TWO_63 then Some(-n) else None)
        else if n <= MAX_INT64 then Some(n) else None
  }

  function Print(n: nat): string {
    var digit := (n % 10 + '0' as int) as char;
    if n < 10 then [digit] else Print(n / 10) + [digit]
  }

  lemma {:induction false} PrintValue(n: nat)
    ensures AllDigits(Print(n)) && DigitsValue(Print(n)) == n
  {
    var s := Print(n);
    var digit := (n % 10 + '0' as int) as char;
    assert IsDigit(digit) && digit as int - '0' as int == n % 10;
    if n < 10 {
      assert s[..0] == "";
    } else {
      PrintValue(n / 10);
      assert s[..|s| - 1] == Print(n / 10);
    }
  }

  lemma PrintParses(n: nat)
    requires n <= MAX_INT64
    ensures ParseInt64(Print(n)) == Some(n)
    ensures forall c | c in Print(n) :: IsDigit(c)
  {
    PrintValue(n);
    assert Print(n)[0] in Print(n);
  }

  // What a number is, told by its digits.

  predicate Zeros(s: string) {
    forall i | 0 <= i < |s| :: s[i] == '0'
  }

  predicate SignFits(sign: string, n: int) {
    if sign == "-" then n <= 0 else (sign == "" || sign == "+") && n >= 0
  }

  function Magnitude(n: int): nat {
    if n < 0 then -n else n
  }

  ghost predicate WrittenAs(s: string, n: int, sign: string, zeros: string) {
    s == sign + (zeros + Print(Magnitude(n))) && SignFits(sign, n) && Zeros(zeros)
  }

  lemma {:induction false} ZerosInFront(zeros: string, n: nat)
    requires Zeros(zeros)
    ensures AllDigits(zeros + Print(n)) && DigitsValue(zeros + Print(n)) == n
  {
    PrintValue(n);
    var s := zeros + Print(n);
    assert AllDigits(s);
    if n < 10 {
      ZerosAreZero(zeros);
      assert s[..|s| - 1] == zeros;
    } else {
      ZerosInFront(zeros, n / 10);
      assert s[..|s| - 1] == zeros + Print(n / 10);
    }
  }

  lemma {:induction false} ZerosAreZero(zeros: string)
    requires Zeros(zeros)
    ensures (forall c | c in zeros :: IsDigit(c)) && DigitsValue(zeros) == 0
  {
    if zeros != "" {
      assert zeros[|zeros| - 1] in zeros;
      ZerosAreZero(zeros[..|zeros| - 1]);
    }
  }

  lemma {:induction false} DigitsAreZerosAndPrint(s: string) returns (zeros: string)
    requires AllDigits(s)
    ensures Zeros(zeros) && s == zeros + Print(DigitsValue(s))
  {
    var last, front := s[|s| - 1], s[..|s| - 1];
    assert IsDigit(last) by {
      assert last in s;
    }
    var digit := last as int - '0' as int;
    assert s == front + [last];
    assert forall c | c in front :: c in s;
    if front == "" {
      zeros := "";
      assert Print(digit) == [last];
      assert s == "" + Print(digit);
    } else {
      var rest := DigitsAreZerosAndPrint(front);
      var high := DigitsValue(front);
      if high == 0 {
        zeros := front;
        assert Print(0) == "0";
        assert Print(digit) == [last];
      } else {
        zeros := rest;
        assert (high * 10 + digit) / 10 == high && (high * 10 + digit) % 10 == digit;
        assert Print(high * 10 + digit) == Print(high) + [last];
        assert s == rest + (Print(high) + [last]);
      }
    }
  }

  lemma IntIsWritten(s: string, n: int)
    requires ParseInt64(s) == Some(n)
    ensures exists sign, zeros :: WrittenAs(s, n, sign, zeros)
    ensures -0x8000_0000_0000_0000 <= n <= 0x7fff_ffff_ffff_ffff
  {
    hide Print;
    var signed := s[0] == '+' || s[0] == '-';
    var sign, digits := if signed then [s[0]] else "", if signed then s[1..] else s;
    var zeros := DigitsAreZerosAndPrint(digits);
    assert s == sign + digits;
    assert WrittenAs(s, n, sign, zeros);
  }

  lemma WrittenIsInt(s: string, n: int, sign: string, zeros: string)
    requires WrittenAs(s, n, sign, zeros)
    requires -0x8000_0000_0000_0000 <= n <= 0x7fff_ffff_ffff_ffff
    ensures ParseInt64(s) == Some(n)
  {
    hide Print;
    var digits := zeros + Print(Magnitude(n));
    ZerosInFront(zeros, Magnitude(n));
    assert s == sign + digits && digits[0] in digits;
    if sign == "" {
      assert s == digits;
    } else {
      assert s[1..] == digits;
    }
  }

  /** A number is read exactly from a sign that fits, zeros, and its own digits, within 64 bits. */
  lemma IntExactly(s: string, n: int)
    ensures ParseInt64(s) == Some(n) <==>
            -0x8000_0000_0000_0000 <= n <= 0x7fff_ffff_ffff_ffff
            && exists sign, zeros :: WrittenAs(s, n, sign, zeros)
  {
    hide ParseInt64, WrittenAs;
    if ParseInt64(s) == Some(n) {
      IntIsWritten(s, n);
    } else if -0x8000_0000_0000_0000 <= n <= 0x7fff_ffff_ffff_ffff {
      if sign, zeros :| WrittenAs(s, n, sign, zeros) {
        WrittenIsInt(s, n, sign, zeros);
      }
    }
  }

  // -------------------------------------------------------------------------
  // parseContentRange
  // -------------------------------------------------------------------------

  /** The bytes from `start` to `end`, both included. */
  datatype ContentRange = ContentRange(start: int, end: int)

  /** The number of bytes covered, in int64 arithmetic. */
  function Length(cr: ContentRange): int {
    Wrap64(Wrap64(cr.end - cr.start) + 1)
  }

  /** strings.Cut at the first occurrence of a byte. */
  function Cut(s: string, sep: char): Option<(string, string)> {
    if s == "" then None
    else if s[0] == sep then Some(("", s[1..]))
    else
      match Cut(s[1..], sep)
      case None => None
      case Some((head, tail)) => Some(([s[0]] + head, tail))
  }

  const UNIT := "bytes "

  function ParseContentRange(v: string): Option<ContentRange> {
    if !(|UNIT| <= |v| && v[..|UNIT|] == UNIT) then None
    else
      match Cut(v[|UNIT|..], '/')
      case None => None
      case Some((rng, total)) =>
        match Cut(rng, '-')
        case None => None
        case Some((lo, hi)) =>
          var start := ParseInt64(lo);
          if start.None? || start.value < 0 then None
          else
            var end := ParseInt64(hi);
            if end.None? || end.value < start.value then None
            else if total == "*" then Some(ContentRange(start.value, end.value))
            else
              var n := ParseInt64(total);
              if n.None? || n.value <= end.value then None
              else Some(ContentRange(start.value, end.value))
  }

  lemma {:induction false} CutAt(head: string, sep: char, tail: string)
    requires sep !in head
    ensures Cut(head + [sep] + tail, sep) == Some((head, tail))
  {
    var s := head + [sep] + tail;
    if head == "" {
      assert s[1..] == tail;
    } else {
      CutAt(head[1..], sep, tail);
      assert s[1..] == head[1..] + [sep] + tail;
      assert [head[0]] + head[1..] == head;
    }
  }

  lemma {:induction false} CutSplits(s: string, sep: char)
    requires Cut(s, sep).Some?
    ensures var (head, tail) := Cut(s, sep).value; s == head + [sep] + tail && sep !in head
  {
    if s[0] != sep {
      CutSplits(s[1..], sep);
      var (head, tail) := Cut(s[1..], sep).value;
      assert s == [s[0]] + (head + [sep] + tail);
    }
  }

  /** The header as a client writes it; no total means "*". */
  function PrintContentRange(start: nat, end: nat, total: Option<nat>): string {
    UNIT + ((Print(start) + "-" + Print(end)) + "/" + (if total.None? then "*" else Print(total.value)))
  }

  /** Every well-formed header is read back exactly, with a total or with "*". */
  lemma PrintedIsAccepted(start: nat, end: nat, total: Option<nat>)
    requires start <= end <= MAX_INT64
    requires total.Some? ==> end < total.value <= MAX_INT64
    ensures ParseContentRange(PrintContentRange(start, end, total)) == Some(ContentRange(start, end))
  {
    var rng := Print(start) + "-" + Print(end);
    var last := if total.None? then "*" else Print(total.value);
    PrintParses(start);
    PrintParses(end);
    if total.Some? {
      PrintParses(total.value);
      assert last[0] in last;
    }
    assert PrintContentRange(start, end, total)[|UNIT|..] == rng + "/" + last;
    CutAt(rng, '/', last);
    CutAt(Print(start), '-', Print(end));
  }

  /** What acceptance means: exactly one way to cut the header, and bounds on the numbers. */
  ghost predicate Spells(v: string, cr: ContentRange, lo: string, hi: string, total: string) {
    && v == "bytes " + ((lo + "-" + hi) + "/" + total)
    && '-' !in lo && '/' !in lo && '/' !in hi
    && ParseInt64(lo) == Some(cr.start) && ParseInt64(hi) == Some(cr.end)
    && 0 <= cr.start <= cr.end <= MAX_INT64
    && (total == "*" || (ParseInt64(total).Some? && cr.end < ParseInt64(total).value))
  }

  lemma AcceptedExactly(v: string, cr: ContentRange)
    ensures ParseContentRange(v) == Some(cr) <==> exists lo, hi, total :: Spells(v, cr, lo, hi, total)
  {
    if ParseContentRange(v) == Some(cr) {
      var spec := v[|UNIT|..];
      CutSplits(spec, '/');
      var (rng, total) := Cut(spec, '/').value;
      CutSplits(rng, '-');
      var (lo, hi) := Cut(rng, '-').value;
      assert v == UNIT + spec;
      assert Spells(v, cr, lo, hi, total);
    }
    if lo, hi, total :| Spells(v, cr, lo, hi, total) {
      assert v[|UNIT|..] == (lo + "-" + hi) + "/" + total;
      CutAt(lo + "-" + hi, '/', total);
      CutAt(lo, '-', hi);
    }
  }

  /** `length` is the true count unless the range is the one from 0 to 2^63-1. */
  lemma LengthIsExact(cr: ContentRange)
    requires 0 <= cr.start <= cr.end <= MAX_INT64
    ensures Length(cr) == cr.end - cr.start + 1 <==> cr != ContentRange(0, MAX_INT64)
    ensures cr == ContentRange(0, MAX_INT64) ==> Length(cr) == -TWO_63
  {
    assert Wrap64(cr.end - cr.start) == cr.end - cr.start;
    if cr == ContentRange(0, MAX_INT64) {
      assert (TWO_63 + TWO_63) % TWO_64 == 0;
    }
  }
}
