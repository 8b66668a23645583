/** Header values that are a few words (`parseDepth`, `overwrite`, `parseTimeout`). */
module Headers {
  import opened Wrappers
  import opened ContentRange
  import Paths

  // -------------------------------------------------------------------------
  // Words
  // -------------------------------------------------------------------------

  predicate IsSpace(c: char) {
    c == ' ' || '\t' as int <= c as int <= '\r' as int
  }

  function TrimLeft(s: string): string {
    if s != "" && IsSpace(s[0]) then TrimLeft(s[1..]) else s
  }

  function TrimRight(s: string): string {
    if s != "" && IsSpace(s[|s| - 1]) then TrimRight(s[..|s| - 1]) else s
  }

  /** strings.TrimSpace */
  function Trim(s: string): string {
    TrimRight(TrimLeft(s))
  }

  function LowerChar(c: char): char {
    if 'A' <= c <= 'Z' then (c as int - 'A' as int + 'a' as int) as char else c
  }

  /** strings.ToLower; two words are equal up to case when this makes them equal. */
  function Lower(s: string): string {
    seq(|s|, i requires 0 <= i < |s| => LowerChar(s[i]))
  }

  // What a word is, character by character.

  predicate Blank(c: char) {
    c as int in {9, 10, 11, 12, 13, 32}
  }

  predicate Blanks(s: string) {
    forall c | c in s :: Blank(c)
  }

  /** The same character, or the same letter in the other case. */
  predicate SameLetter(a: char, b: char) {
    || a == b
    || ('A' <= a <= 'Z' && b as int == a as int + 32)
    || ('A' <= b <= 'Z' && a as int == b as int + 32)
  }

  predicate SameWord(a: string, b: string) {
    |a| == |b| && forall i | 0 <= i < |a| :: SameLetter(a[i], b[i])
  }

  ghost predicate Framed(v: string, left: string, core: string, right: string) {
    v == left + core + right && Blanks(left) && Blanks(right)
  }

  /** `v` is the word in any case, with nothing but blanks around it. */
  ghost predicate Spells(v: string, word: string) {
    exists left, core, right :: Framed(v, left, core, right) && SameWord(core, word)
  }

  /** Not empty, and no blank at either end. */
  predicate Tight(s: string) {
    s != "" && !Blank(s[0]) && !Blank(s[|s| - 1])
  }

  lemma {:induction false} TrimRightSplits(s: string) returns (right: string)
    ensures s == TrimRight(s) + right && Blanks(right)
    ensures TrimRight(s) != "" ==> !Blank(TrimRight(s)[|TrimRight(s)| - 1])
    ensures TrimRight(s) != "" ==> TrimRight(s)[0] == s[0]
  {
    if s != "" && IsSpace(s[|s| - 1]) {
      var rest := TrimRightSplits(s[..|s| - 1]);
      right := rest + [s[|s| - 1]];
      assert s == s[..|s| - 1] + [s[|s| - 1]];
    } else {
      right := "";
    }
  }

  lemma {:induction false} TrimLeftSplits(s: string) returns (left: string)
    ensures s == left + TrimLeft(s) && Blanks(left)
    ensures TrimLeft(s) != "" ==> !Blank(TrimLeft(s)[0])
  {
    if s != "" && IsSpace(s[0]) {
      var rest := TrimLeftSplits(s[1..]);
      left := [s[0]] + rest;
    } else {
      left := "";
    }
  }

  lemma TrimSplits(s: string) returns (left: string, right: string)
    ensures Framed(s, left, Trim(s), right)
    ensures Trim(s) == "" || Tight(Trim(s))
  {
    left := TrimLeftSplits(s);
    right := TrimRightSplits(TrimLeft(s));
    assert s == left + (Trim(s) + right);
  }

  lemma {:induction false} TrimRightAround(core: string, right: string)
    requires Blanks(right) && (core == "" || !Blank(core[|core| - 1]))
    ensures TrimRight(core + right) == core
  {
    var s := core + right;
    if right != "" {
      assert s[|s| - 1] == right[|right| - 1] && right[|right| - 1] in right;
      assert s[..|s| - 1] == core + right[..|right| - 1];
      TrimRightAround(core, right[..|right| - 1]);
    } else {
      assert s == core;
    }
  }

  lemma {:induction false} TrimLeftAround(left: string, rest: string)
    requires Blanks(left) && (rest == "" || !Blank(rest[0]))
    ensures TrimLeft(left + rest) == rest
  {
    if left != "" {
      assert (left + rest)[1..] == left[1..] + rest && left[0] in left;
      TrimLeftAround(left[1..], rest);
    } else {
      assert left + rest == rest;
    }
  }

  lemma {:induction false} BlanksTrimAway(s: string)
    requires Blanks(s)
    ensures Trim(s) == ""
  {
    TrimLeftAround(s, "");
    assert s + "" == s;
  }

  lemma TrimAround(s: string, left: string, core: string, right: string)
    requires Framed(s, left, core, right) && (core == "" || Tight(core))
    ensures Trim(s) == core
  {
    if core == "" {
      BlanksTrimAway(s);
    } else {
      assert s == left + (core + right);
      TrimLeftAround(left, core + right);
      TrimRightAround(core, right);
    }
  }

  /** No letter of the word is a capital, so lowering is comparing up to case. */
  predicate LowerCase(word: string) {
    forall c | c in word :: !('A' <= c <= 'Z')
  }

  lemma LowerIsSameWord(w: string, word: string)
    requires LowerCase(word)
    ensures Lower(w) == word <==> SameWord(w, word)
  {
    if |w| == |word| {
      forall i | 0 <= i < |w|
        ensures LowerChar(w[i]) == word[i] <==> SameLetter(w[i], word[i])
      {
        assert word[i] in word;
      }
      assert forall i | 0 <= i < |w| :: Lower(w)[i] == LowerChar(w[i]);
    }
  }

  lemma SpellsExactly(v: string, word: string)
    requires LowerCase(word) && (word == "" || Tight(word))
    ensures Lower(Trim(v)) == word <==> Spells(v, word)
  {
    LowerIsSameWord(Trim(v), word);
    var l, r := TrimSplits(v);
    if left, core, right :| Framed(v, left, core, right) && SameWord(core, word) {
      assert core != "" ==> SameLetter(core[0], word[0]) && SameLetter(core[|core| - 1], word[|word| - 1]);
      TrimAround(v, left, core, right);
    }
  }

  lemma NothingSpelled(v: string)
    ensures Spells(v, "") <==> Blanks(v)
  {
    if Blanks(v) {
      assert Framed(v, v, "", "") && SameWord("", "");
    }
  }

  // -------------------------------------------------------------------------
  // Depth and Overwrite
  // -------------------------------------------------------------------------

  datatype Depth = Zero | One | Infinity

  function ParseDepth(v: string): Option<Depth> {
    var word := Lower(Trim(v));
    if word == "" then Some(Infinity)
    else if word == "0" then Some(Zero)
    else if word == "1" then Some(One)
    else if word == "infinity" then Some(Infinity)
    else None
  }

  /** A depth as it stands on the wire. */
  function PrintDepth(d: Depth): string {
    match d
    case Zero => "0"
    case One => "1"
    case Infinity => "infinity"
  }

  /** A depth is read exactly from its own spelling, and infinity from nothing at all. */
  lemma DepthExactly(v: string, d: Depth)
    ensures ParseDepth(v) == Some(d) <==> Spells(v, PrintDepth(d)) || (d == Infinity && Blanks(v))
  {
    SpellsExactly(v, "");
    NothingSpelled(v);
    SpellsExactly(v, "0");
    SpellsExactly(v, "1");
    SpellsExactly(v, "infinity");
    assert "0"[0] != "1"[0] && |"infinity"| == 8;
  }

  /** The Overwrite header; None when it is neither T, F nor empty. */
  function ParseOverwrite(v: string): Option<bool> {
    var word := Lower(Trim(v));
    if word == "" || word == "t" then Some(true)
    else if word == "f" then Some(false)
    else None
  }

  /** F forbids overwriting, T or nothing allows it, and any other value is neither. */
  lemma OverwriteExactly(v: string)
    ensures ParseOverwrite(v) == Some(false) <==> Spells(v, "f")
    ensures ParseOverwrite(v) == Some(true) <==> Spells(v, "t") || Blanks(v)
  {
    SpellsExactly(v, "");
    NothingSpelled(v);
    SpellsExactly(v, "t");
    SpellsExactly(v, "f");
    assert "t"[0] != "f"[0];
  }

  // -------------------------------------------------------------------------
  // Timeout
  // -------------------------------------------------------------------------

  /** Durations are nanoseconds in an int64. */
  const SECOND := 1_000_000_000
  const DEFAULT_LOCK_TIMEOUT := 300 * SECOND
  const MAX_LOCK_TIMEOUT := 3600 * SECOND

  /** The number of seconds a usable "Second-n" part asks for. */
  function SecondsOf(part: string): Option<int> {
    if |part| >= 7 && Lower(part)[..7] == "second-" then
      var n := ParseInt64(part[7..]);
      if n.Some? && n.value > 0 then n else None
    else None
  }

  function GrantSeconds(n: int): int {
    var d := Wrap64(n * SECOND);
    if d < MAX_LOCK_TIMEOUT then d else MAX_LOCK_TIMEOUT
  }

  /** What one part of the header grants; None when it is passed over. */
  function PartTimeout(raw: string): Option<int> {
    var part := Trim(raw);
    if Lower(part) == "infinite" then Some(MAX_LOCK_TIMEOUT)
    else
      var n := SecondsOf(part);
      if n.None? then None else Some(GrantSeconds(n.value))
  }

  function FirstTimeout(parts: seq<string>): int {
    if parts == [] then DEFAULT_LOCK_TIMEOUT
    else
      var granted := PartTimeout(parts[0]);
      if granted.Some? then granted.value else FirstTimeout(parts[1..])
  }

  method ParseTimeout(v: string) returns (timeout: int)
    ensures timeout == FirstTimeout(Paths.Split(v, ','))
  {
    var parts := Paths.Split(v, ',');
    assert parts[0..] == parts;
    for i := 0 to |parts|
      invariant FirstTimeout(parts[i..]) == FirstTimeout(parts)
    {
      assert parts[i..][1..] == parts[i + 1..];
      var part := Trim(parts[i]);
      if Lower(part) == "infinite" {
        return MAX_LOCK_TIMEOUT;
      }
      var n := SecondsOf(part);
      if n.None? {
        continue;
      }
      var d := Wrap64(n.value * SECOND);
      if d < MAX_LOCK_TIMEOUT {
        return d;
      }
      return MAX_LOCK_TIMEOUT;
    }
    timeout := DEFAULT_LOCK_TIMEOUT;
  }

  /** Up to the largest duration an int64 holds, n seconds are granted up to the hour. */
  lemma GrantIsClamped(n: int)
    requires 0 < n <= 9223372036
    ensures GrantSeconds(n) == if n < 3600 then n * 1_000_000_000 else 3_600_000_000_000
  {
    assert 0 < n * SECOND <= MAX_INT64;
  }

  /**
   Beyond that the product wraps: a grant is between a second and the hour exactly when the
   product, reduced modulo 2^64, is at least a second and below 2^63.
   */
  lemma GrantInRange(n: int)
    requires 0 < n
    ensures GrantSeconds(n) <= MAX_LOCK_TIMEOUT
    ensures SECOND <= GrantSeconds(n) <==> SECOND <= n * SECOND % TWO_64 < TWO_63
  {
    WrapByRemainder(n * SECOND);
  }

  /** One second more than fits grants a time already past. */
  lemma GrantWraps()
    ensures GrantSeconds(9223372037) < 0
  {
    assert (9223372037 * SECOND + TWO_63) % TWO_64 == 9223372037 * SECOND + TWO_63 - TWO_64;
  }

  /** The part that decides, and whether its seconds overflow. */
  function Decisive(parts: seq<string>): Option<string> {
    if parts == [] then None
    else if PartTimeout(parts[0]).Some? then Some(Trim(parts[0]))
    else Decisive(parts[1..])
  }

  /** Every header grants between a second and the hour, unless the part that decides overflows. */
  lemma {:induction false} TimeoutInRange(parts: seq<string>)
    ensures FirstTimeout(parts) <= MAX_LOCK_TIMEOUT
    ensures SECOND <= FirstTimeout(parts) <==>
            (Decisive(parts).Some? && SecondsOf(Decisive(parts).value).Some? ==>
               SECOND <= SecondsOf(Decisive(parts).value).value * SECOND % TWO_64 < TWO_63)
  {
    if parts != [] {
      var n := SecondsOf(Trim(parts[0]));
      if PartTimeout(parts[0]).None? {
        TimeoutInRange(parts[1..]);
      } else if n.Some? {
        GrantInRange(n.value);
        InfiniteHasNoSeconds(Trim(parts[0]));
      } else {
        InfiniteHasNoSeconds(Trim(parts[0]));
      }
    }
  }

  lemma InfiniteHasNoSeconds(part: string)
    ensures Lower(part) == "infinite" ==> SecondsOf(part).None?
  {
    if Lower(part) == "infinite" {
      assert Lower(part)[..7][0] == 'i';
      assert "second-"[0] == 's';
    }
  }

  lemma {:induction false} FirstUsablePart(before: seq<string>, part: string, after: seq<string>)
    requires forall p | p in before :: PartTimeout(p).None?
    requires PartTimeout(part).Some?
    ensures FirstTimeout(before + [part] + after) == PartTimeout(part).value
  {
    var parts := before + [part] + after;
    if before != [] {
      assert parts[0] == before[0];
      assert parts[1..] == before[1..] + [part] + after;
      FirstUsablePart(before[1..], part, after);
    } else {
      assert parts[0] == part;
    }
  }

  /** "Second-n" as a client prints it is granted as min(n, 3600) seconds. */
  lemma PrintedSeconds(n: nat)
    requires 0 < n <= 9223372036
    ensures FirstTimeout(Paths.Split("Second-" + Print(n), ',')) ==
            if n < 3600 then n * 1_000_000_000 else 3_600_000_000_000
  {
    var v := "Second-" + Print(n);
    PrintParses(n);
    PrintValue(n);
    Paths.SplitAlone(v, ',');
    assert v[|v| - 1] in Print(n);
    assert Trim(v) == v;
    assert v[7..] == Print(n);
    assert Lower(v)[..7] == "second-";
    InfiniteHasNoSeconds(v);
    GrantIsClamped(n);
    assert [v][0] == v;
  }

  lemma NumberIsTight(number: string)
    requires ParseInt64(number).Some?
    ensures Tight(number) && LowerCase(number)
  {
    var signed := number[0] == '+' || number[0] == '-';
    var digits := if signed then number[1..] else number;
    assert IsDigit(digits[|digits| - 1]) by {
      assert digits[|digits| - 1] in digits;
    }
    forall c | c in number
      ensures !('A' <= c <= 'Z')
    {
      assert c in digits || c == number[0];
    }
    assert !signed ==> number[0] in digits;
  }

  /** Digits and signs are no letters: such a word is only spelled by itself. */
  lemma NumberIsItself(w: string, number: string)
    requires ParseInt64(number).Some? || ParseInt64(w).Some?
    ensures SameWord(w, number) <==> w == number
  {
    if SameWord(w, number) {
      if ParseInt64(number).Some? {
        NumberHasNoLetters(number);
      } else {
        NumberHasNoLetters(w);
      }
      forall i | 0 <= i < |w|
        ensures w[i] == number[i]
      {
      }
      assert w == number;
    }
  }

  predicate NoLetters(s: string) {
    forall i | 0 <= i < |s| :: !('A' <= s[i] <= 'Z') && !('a' <= s[i] <= 'z')
  }

  lemma NumberHasNoLetters(number: string)
    requires ParseInt64(number).Some?
    ensures NoLetters(number)
  {
    var signed := number[0] == '+' || number[0] == '-';
    var digits := if signed then number[1..] else number;
    forall i | 0 <= i < |number|
      ensures !('A' <= number[i] <= 'Z') && !('a' <= number[i] <= 'z')
    {
      assert number[i] in digits || i == 0;
    }
  }

  /** `raw` asks for `n` seconds: "second-" in any case and a number, between blanks. */
  ghost predicate AsksSeconds(raw: string, n: int) {
    n > 0 && exists number :: ParseInt64(number) == Some(n) && Spells(raw, "second-" + number)
  }

  lemma AsksSecondsExactly(raw: string, n: int)
    ensures AsksSeconds(raw, n) <==> SecondsOf(Trim(raw)) == Some(n)
  {
    hide Spells, Lower, Trim, ParseInt64;
    if n > 0 {
      var part := Trim(raw);
      if number :| ParseInt64(number) == Some(n) && Spells(raw, "second-" + number) {
        SecondsSpelled(raw, number);
      }
      if SecondsOf(part) == Some(n) {
        SecondsSpelled(raw, part[7..]);
      }
    }
  }

  lemma SecondsSpelled(raw: string, number: string)
    requires ParseInt64(number).Some?
    ensures Spells(raw, "second-" + number) <==>
            |Trim(raw)| >= 7 && Lower(Trim(raw))[..7] == "second-" && Trim(raw)[7..] == number
  {
    hide Spells, Lower, Trim, ParseInt64;
    NumberIsTight(number);
    SpellsExactly(raw, "second-" + number);
    LowerTail(Trim(raw), number);
    if |Trim(raw)| >= 7 {
      NumberIsItself(Trim(raw)[7..], number);
    }
  }

  lemma LowerTail(part: string, number: string)
    requires LowerCase(number)
    ensures Lower(part) == "second-" + number <==>
            |part| >= 7 && Lower(part)[..7] == "second-" && SameWord(part[7..], number)
  {
    if |part| >= 7 {
      LowerIsSameWord(part[7..], number);
      assert Lower(part) == Lower(part)[..7] + Lower(part)[7..];
      assert Lower(part)[7..] == Lower(part[7..]);
      assert ("second-" + number)[..7] == "second-" && ("second-" + number)[7..] == number;
    }
  }

  /** What a part of the header grants, told by its characters. */
  lemma PartExactly(raw: string, granted: int)
    ensures PartTimeout(raw) == Some(granted) <==>
            || (Spells(raw, "infinite") && granted == 3_600_000_000_000)
            || (exists n :: AsksSeconds(raw, n) && granted == GrantSeconds(n))
  {
    SpellsExactly(raw, "infinite");
    InfiniteHasNoSeconds(Trim(raw));
    forall n
      ensures AsksSeconds(raw, n) <==> SecondsOf(Trim(raw)) == Some(n)
    {
      AsksSecondsExactly(raw, n);
    }
  }

  /** Five minutes, when no part can be used. */
  lemma {:induction false} NoUsablePart(parts: seq<string>)
    requires forall p | p in parts :: PartTimeout(p).None?
    ensures FirstTimeout(parts) == 300_000_000_000
  {
    if parts != [] {
      assert parts[0] in parts;
      NoUsablePart(parts[1..]);
    }
  }
}
