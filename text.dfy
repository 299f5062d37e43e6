/**
  The Python string operations the puzzle file is decoded with: `split` on
  one character, `strip`, `int` on decimal text, and the chunking of the
  solution string into rows.
 */
module Texts {
  import opened Results

  /** Python's `s.split(sep)`: one piece more than there are separators. */
  function Split(s: string, sep: char): (r: seq<string>)
    ensures |r| >= 1
    decreases |s|
  {
    if s == [] then [[]]
    else
      var p := Split(s[..|s| - 1], sep);
      var c := s[|s| - 1];
      if c == sep then p + [[]] else p[..|p| - 1] + [p[|p| - 1] + [c]]
  }

  /** Python's `sep.join(parts)`, for a one-character separator and at least one part. */
  function Joined(parts: seq<string>, sep: char): string
    requires parts != []
    decreases |parts|
  {
    if |parts| == 1 then parts[0]
    else Joined(parts[..|parts| - 1], sep) + [sep] + parts[|parts| - 1]
  }

  /** `s.strip(c)`: every c at either end removed. */
  function Strip(s: string, c: char): (r: string)
    ensures r == [] || (r[0] != c && r[|r| - 1] != c)
    decreases |s|
  {
    if s != [] && s[0] == c then Strip(s[1..], c)
    else if s != [] && s[|s| - 1] == c then Strip(s[..|s| - 1], c)
    else s
  }

  /**
    The characters `int` and `str.strip` treat as white space (the ASCII
    ones): tab, newline, vertical tab, form feed and carriage return (9 to
    13), the four separators 0x1c to 0x1f (28 to 31) and space (32).
   */
  predicate IsSpace(c: char) {
    9 <= c as int <= 13 || 28 <= c as int <= 32
  }

  /** `s.strip()`: white space removed at both ends. */
  function StripSpace(s: string): (r: string)
    ensures r == [] || (!IsSpace(r[0]) && !IsSpace(r[|r| - 1]))
    decreases |s|
  {
    if s != [] && IsSpace(s[0]) then StripSpace(s[1..])
    else if s != [] && IsSpace(s[|s| - 1]) then StripSpace(s[..|s| - 1])
    else s
  }

  predicate IsDigit(c: char) {
    '0' <= c <= '9'
  }

  predicate AllDigits(s: string) {
    forall k :: 0 <= k < |s| ==> IsDigit(s[k])
  }

  function DigitValue(c: char): nat
    requires IsDigit(c)
  {
    (c as int) - ('0' as int)
  }

  function DigitChar(d: nat): (c: char)
    requires d < 10
    ensures IsDigit(c) && DigitValue(c) == d
  {
    (('0' as int) + d) as char
  }

  /** The number a string of decimal digits stands for. */
  function DigitsValue(s: string): nat
    requires AllDigits(s)
    decreases |s|
  {
    if s == [] then 0 else DigitsValue(s[..|s| - 1]) * 10 + DigitValue(s[|s| - 1])
  }

  /** `str(n)`. */
  function Decimal(n: nat): (r: string)
    ensures r != [] && AllDigits(r)
  {
    if n < 10 then [DigitChar(n)] else Decimal(n / 10) + [DigitChar(n % 10)]
  }

  /**
    The digits of `int`'s decimal form: at least one digit, the groups of
    digits separated by single underscores, no underscore at either end.
   */
  predicate DigitGroups(b: string)
    decreases |b|
  {
    && b != [] && IsDigit(b[0])
    && (|b| == 1 || DigitGroups(b[1..]) || (b[1] == '_' && DigitGroups(b[2..])))
  }

  /** Digit groups are made of digits and underscores, and end in a digit. */
  lemma {:induction false} GroupsChars(b: string)
    requires DigitGroups(b)
    ensures IsDigit(b[|b| - 1])
    ensures forall k :: 0 <= k < |b| ==> IsDigit(b[k]) || b[k] == '_'
    decreases |b|
  {
    if |b| > 1 {
      if DigitGroups(b[1..]) {
        GroupsChars(b[1..]);
        assert forall k :: 1 <= k < |b| ==> b[k] == b[1..][k - 1];
      } else {
        GroupsChars(b[2..]);
        assert forall k :: 2 <= k < |b| ==> b[k] == b[2..][k - 2];
      }
    }
  }

  /** The digits of b with the underscores left out. */
  function DropUnderscores(b: string): (r: string)
    ensures (forall k :: 0 <= k < |b| ==> IsDigit(b[k]) || b[k] == '_') ==> AllDigits(r)
  {
    if b == [] then []
    else (if b[0] == '_' then [] else [b[0]]) + DropUnderscores(b[1..])
  }

  /** The text after an optional leading sign. */
  function Unsigned(t: string): string {
    if t != [] && (t[0] == '-' || t[0] == '+') then t[1..] else t
  }

  /**
    `int(s)`: white space around the number is dropped, then an optional
    '+' or '-' sign, then decimal digits in groups separated by single
    underscores. Any other ASCII text is a ValueError; digits and white
    space outside ASCII are not modelled.
   */
  function ParseInt(s: string): (r: Result<int>)
    ensures r.Success? <==> DigitGroups(Unsigned(StripSpace(s)))
    ensures r.Failure? ==> r.error == ValueError
  {
    var t := StripSpace(s);
    var b := Unsigned(t);
    if DigitGroups(b) then
      GroupsChars(b);
      var n: int := DigitsValue(DropUnderscores(b));
      Success(if t[0] == '-' then -n else n)
    else Failure(ValueError)
  }

  /**
    `int(s)` where the model needs a number that is not negative: a clue
    number or a solution digit. A negative number, which Python's `int`
    accepts, is refused with a ValueError.
   */
  function ParseNat(s: string): (r: Result<nat>)
    ensures r.Success? <==> ParseInt(s).Success? && ParseInt(s).value >= 0
    ensures r.Success? ==> r.value == ParseInt(s).value
    ensures r.Failure? ==> r.error == ValueError
  {
    var n :- ParseInt(s);
    if n < 0 then Failure(ValueError) else Success(n)
  }

  /**
    `list(map(''.join, zip(*[iter(s)] * w)))`: consecutive pieces of exactly
    w characters; a shorter piece left at the end is dropped, and a width of
    0 gives no piece.
   */
  function Chunks(s: string, w: nat): (r: seq<string>)
    ensures forall k :: 0 <= k < |r| ==> |r[k]| == w
    ensures w > 0 ==> |Concat(r)| <= |s| && Concat(r) == s[..|Concat(r)|] && |s| - |Concat(r)| < w
    decreases |s|
  {
    if w == 0 || |s| < w then []
    else
      var rest := Chunks(s[w..], w);
      assert Concat([s[..w]] + rest) == s[..w] + Concat(rest) by {
        assert ([s[..w]] + rest)[1..] == rest;
      }
      [s[..w]] + rest
  }

  // ---------------------------------------------------------------------
  // Properties

  /** The pieces of a string one character longer. */
  lemma SplitSnoc(s: string, c: char, sep: char)
    ensures var p := Split(s, sep);
      Split(s + [c], sep) == if c == sep then p + [[]] else p[..|p| - 1] + [p[|p| - 1] + [c]]
  {
    assert (s + [c])[..|s + [c]| - 1] == s;
  }

  /** A string without the separator is one piece. */
  lemma {:induction false} SplitWithout(t: string, sep: char)
    requires sep !in t
    ensures Split(t, sep) == [t]
    decreases |t|
  {
    if t != [] {
      SplitWithout(t[..|t| - 1], sep);
      assert t[..|t| - 1] + [t[|t| - 1]] == t;
    }
  }

  /** A separator followed by a piece without one adds that piece. */
  lemma {:induction false} SplitAfterSeparator(s: string, sep: char, t: string)
    requires sep !in t
    ensures Split(s + [sep] + t, sep) == Split(s, sep) + [t]
    decreases |t|
  {
    if t == [] {
      assert s + [sep] + t == s + [sep];
      assert (s + [sep])[..|s|] == s;
    } else {
      var t' := t[..|t| - 1];
      SplitAfterSeparator(s, sep, t');
      assert (s + [sep] + t)[..|s + [sep] + t| - 1] == s + [sep] + t';
      assert t' + [t[|t| - 1]] == t;
    }
  }

  /** Splitting undoes joining when no part holds the separator. */
  lemma {:induction false} SplitJoin(parts: seq<string>, sep: char)
    requires parts != [] && forall k :: 0 <= k < |parts| ==> sep !in parts[k]
    ensures Split(Joined(parts, sep), sep) == parts
    decreases |parts|
  {
    if |parts| == 1 {
      SplitWithout(parts[0], sep);
    } else {
      var init := parts[..|parts| - 1];
      SplitJoin(init, sep);
      SplitAfterSeparator(Joined(init, sep), sep, parts[|parts| - 1]);
      assert init + [parts[|parts| - 1]] == parts;
    }
  }

  /** The characters of a join are those of its parts and the separator. */
  lemma {:induction false} JoinChars(parts: seq<string>, sep: char, c: char)
    requires parts != [] && c != sep && forall k :: 0 <= k < |parts| ==> c !in parts[k]
    ensures c !in Joined(parts, sep)
    decreases |parts|
  {
    if |parts| > 1 {
      JoinChars(parts[..|parts| - 1], sep, c);
    }
  }

  lemma {:induction false} StripSpaceKeeps(s: string)
    requires s == [] || (!IsSpace(s[0]) && !IsSpace(s[|s| - 1]))
    ensures StripSpace(s) == s
  {
  }

  lemma {:induction false} StripKeeps(s: string, c: char)
    requires s == [] || (s[0] != c && s[|s| - 1] != c)
    ensures Strip(s, c) == s
  {
  }

  /** Reading back the digits of a number gives the number. */
  lemma {:induction false} DecimalValue(n: nat)
    ensures DigitsValue(Decimal(n)) == n
  {
    if n >= 10 {
      DecimalValue(n / 10);
      var s := Decimal(n / 10) + [DigitChar(n % 10)];
      assert s[..|s| - 1] == Decimal(n / 10);
    }
  }

  /** `int(str(n)) == n`, and `int('-' + str(n)) == -n`. */
  lemma ParseDecimal(n: nat)
    ensures ParseNat(Decimal(n)) == Success(n)
    ensures ParseInt(Decimal(n)) == Success(n)
    ensures ParseInt(['-'] + Decimal(n)) == Success(-(n as int))
  {
    var s := Decimal(n);
    DigitsAreGroups(s);
    StripSpaceKeeps(s);
    DecimalValue(n);
    DropNoUnderscores(s);
    assert Unsigned(s) == s;
    var m := ['-'] + s;
    StripSpaceKeeps(m);
    assert Unsigned(m) == s;
  }

  /** One digit character reads as its value. */
  lemma ParseDigitChar(c: char)
    requires IsDigit(c)
    ensures ParseNat([c]) == Success(DigitValue(c))
  {
    ParseDecimal(DigitValue(c));
    assert Decimal(DigitValue(c)) == [c];
  }

  /** A string of digits is one group of digits. */
  lemma {:induction false} DigitsAreGroups(s: string)
    requires s != [] && AllDigits(s)
    ensures DigitGroups(s)
    decreases |s|
  {
    if |s| > 1 {
      DigitsAreGroups(s[1..]);
    }
  }

  /** A string of digits has no underscore to drop. */
  lemma {:induction false} DropNoUnderscores(s: string)
    requires AllDigits(s)
    ensures DropUnderscores(s) == s
  {
    if s != [] {
      DropNoUnderscores(s[1..]);
    }
  }

  /**
    What `int` accepts besides plain digits: a sign, underscores between
    digits and white space around the number.
   */
  lemma ParseIntAccepts()
    ensures ParseInt("-1") == Success(-1)
    ensures ParseInt("+2") == Success(2)
    ensures ParseInt("1_0") == Success(10)
    ensures ParseInt(" 7\r") == Success(7)
    ensures ParseNat("+2") == Success(2) && ParseNat("-1").Failure?
  {
    ParseDecimal(1);
    assert ['-'] + Decimal(1) == "-1";
    SignedDigit("+2");
    UnderscoredTen();
    SpacedDigit();
  }

  lemma SignedDigit(s: string)
    requires s == "+2"
    ensures ParseInt(s) == Success(2)
  {
    assert StripSpace(s) == s;
    assert Unsigned(s) == "2";
    assert DropUnderscores("2") == "2";
  }

  lemma UnderscoredTen()
    ensures ParseInt("1_0") == Success(10)
  {
    var s := "1_0";
    assert StripSpace(s) == s;
    assert Unsigned(s) == s;
    assert DropUnderscores(s[2..]) == "0";
    assert DropUnderscores(s[1..]) == "0";
    assert DropUnderscores(s) == "10";
    assert DigitsValue("10") == 10 by {
      assert "10"[..1] == "1";
    }
  }

  lemma SpacedDigit()
    ensures ParseInt(" 7\r") == Success(7)
  {
    var s := " 7\r";
    assert s[1..] == "7\r";
    assert s[1..][..1] == "7";
    assert StripSpace(s) == "7";
    assert DropUnderscores("7") == "7";
  }

  /** The ASCII separators 0x1c to 0x1f are white space to `int`, like tab and newline. */
  lemma ParseIntSeparators()
    ensures ParseInt([28 as char, '7', 31 as char]) == Success(7)
    ensures ParseInt([29 as char, 30 as char, '-', '1']) == Success(-1)
  {
    var s := [28 as char, '7', 31 as char];
    assert s[1..] == ['7', 31 as char];
    assert s[1..][..1] == "7";
    assert IsSpace(s[0]) && IsSpace(s[1..][1]);
    assert StripSpace(s) == StripSpace(s[1..]) == StripSpace("7") == "7";
    assert DropUnderscores("7") == "7";
    var t := [29 as char, 30 as char, '-', '1'];
    assert t[1..] == [30 as char, '-', '1'];
    assert t[1..][1..] == "-1";
    assert IsSpace(t[0]) && IsSpace(t[1..][0]);
    assert StripSpace(t) == StripSpace(t[1..]) == StripSpace("-1") == "-1";
    assert Unsigned("-1") == "1";
    assert DropUnderscores("1") == "1";
  }

  /** What `int` refuses: a misplaced or doubled underscore, a lone sign, a blank string. */
  lemma ParseIntRefuses()
    ensures ParseInt("1__0").Failure? && ParseInt("_1").Failure? && ParseInt("1_").Failure?
    ensures ParseInt("-").Failure? && ParseInt(" ").Failure?
  {
    assert StripSpace("1__0") == "1__0";
    assert !DigitGroups("1__0") by {
      assert "1__0"[1] == '_' && !IsDigit("1__0"[2]);
    }
    assert StripSpace("_1") == "_1";
    assert StripSpace("1_") == "1_";
    assert StripSpace("-") == "-";
    assert Unsigned("-") == [];
    assert " "[1..] == [];
    assert StripSpace(" ") == [];
  }

  /** Chunking the concatenation of pieces of width w gives the pieces back. */
  lemma {:induction false} ChunksOfConcat(pieces: seq<string>, w: nat)
    requires w > 0 && forall k :: 0 <= k < |pieces| ==> |pieces[k]| == w
    ensures Chunks(Concat(pieces), w) == pieces
    decreases |pieces|
  {
    if pieces != [] {
      var s := Concat(pieces);
      assert s == pieces[0] + Concat(pieces[1..]);
      assert s[..w] == pieces[0];
      assert s[w..] == Concat(pieces[1..]);
      ChunksOfConcat(pieces[1..], w);
    }
  }

  /** The pieces written one after the other. */
  function Concat(pieces: seq<string>): (r: string)
    decreases |pieces|
  {
    if pieces == [] then [] else pieces[0] + Concat(pieces[1..])
  }
}
