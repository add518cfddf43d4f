/** The string handling the calendar relies on: decimal formatting of numbers
    (template literals and date-fns 'HH' / 'mm'), JavaScript's `parseInt` on
    decimal input, and `String.prototype.split` on a one-character separator. */
module Text {
  import opened Wrappers

  predicate IsDigit(c: char) {
    '0' <= c <= '9'
  }

  predicate AllDigits(s: string) {
    forall i :: 0 <= i < |s| ==> IsDigit(s[i])
  }

  function DigitValue(c: char): (v: int)
    requires IsDigit(c)
    ensures 0 <= v < 10
  {
    (c as int) - ('0' as int)
  }

  function DigitChar(n: int): (c: char)
    requires 0 <= n < 10
    ensures IsDigit(c) && DigitValue(c) == n
  {
    (('0' as int) + n) as char
  }

  /** Decimal digits of a natural number, without leading zeros. */
  function NatStr(n: nat): (s: string)
    ensures |s| > 0 && AllDigits(s)
    decreases n
  {
    if n < 10 then [DigitChar(n)] else NatStr(n / 10) + [DigitChar(n % 10)]
  }

  /** `NatStr` writes no leading zero. */
  lemma {:induction false} NoLeadingZero(n: nat)
    ensures NatStr(n)[0] == '0' ==> n == 0
    decreases n
  {
    if n >= 10 {
      NoLeadingZero(n / 10);
      assert NatStr(n)[0] == NatStr(n / 10)[0];
    }
  }

  /** Decimal form of an integer, with a leading '-' when negative. */
  function IntStr(n: int): string {
    if n < 0 then "-" + NatStr(-n) else NatStr(n)
  }

  /** The two-digit zero-padded form of 0..99. */
  function Pad2(n: int): (s: string)
    requires 0 <= n < 100
    ensures |s| == 2 && AllDigits(s)
  {
    [DigitChar(n / 10), DigitChar(n % 10)]
  }

  /** The number a string of decimal digits denotes (leading zeros allowed). */
  function DigitsValue(s: string): nat
    requires AllDigits(s)
    decreases |s|
  {
    if |s| == 0 then 0 else 10 * DigitsValue(s[..|s| - 1]) + DigitValue(s[|s| - 1])
  }

  /** Length of the run of digits at the front of `s`. */
  function DigitRun(s: string): (k: nat)
    ensures k <= |s| && AllDigits(s[..k])
    ensures k < |s| ==> !IsDigit(s[k])
    decreases |s|
  {
    if |s| > 0 && IsDigit(s[0]) then
      var k := 1 + DigitRun(s[1..]);
      assert s[..k] == [s[0]] + s[1..][..k - 1];
      k
    else 0
  }

  /** Reads an optionally signed decimal integer from the front of `s` and
      returns it with the unread rest; None when no digit follows the sign. */
  function ReadInt(s: string): (r: Option<(int, string)>)
    ensures r.Some? ==> |r.value.1| < |s| && r.value.1 == s[|s| - |r.value.1|..]
  {
    var signed := |s| > 0 && (s[0] == '-' || s[0] == '+');
    var body := if signed then s[1..] else s;
    var k := DigitRun(body);
    if k == 0 then None
    else
      var v: int := DigitsValue(body[..k]);
      Some((if signed && s[0] == '-' then -v else v, body[k..]))
  }

  /** `parseInt(s)` on decimal input: None stands for NaN. */
  function ParseInt(s: string): Option<int> {
    match ReadInt(s)
    case None => None
    case Some((v, _)) => Some(v)
  }

  lemma {:induction false} DigitsValueOfNatStr(n: nat)
    ensures DigitsValue(NatStr(n)) == n
    decreases n
  {
    if n >= 10 {
      var s := NatStr(n);
      assert s[..|s| - 1] == NatStr(n / 10);
      DigitsValueOfNatStr(n / 10);
    }
  }

  lemma {:induction false} DigitRunOfDigitsThen(p: string, t: string)
    requires AllDigits(p)
    requires t == [] || !IsDigit(t[0])
    ensures DigitRun(p + t) == |p|
    decreases |p|
  {
    if |p| > 0 {
      assert (p + t)[1..] == p[1..] + t;
      DigitRunOfDigitsThen(p[1..], t);
    } else {
      assert p + t == t;
    }
  }

  /** `IntStr` and `ReadInt` are inverse: the number is read back, and reading
      stops exactly where the number's text ends. */
  lemma IntStrReadBack(n: int, t: string)
    requires t == [] || !IsDigit(t[0])
    ensures ReadInt(IntStr(n) + t) == Some((n, t))
  {
    if n < 0 {
      NatStrThen(-n, t);
      NegativeDigits(NatStr(-n), t);
      assert IntStr(n) + t == "-" + NatStr(-n) + t;
    } else {
      NatStrThen(n, t);
      UnsignedDigits(NatStr(n), t);
    }
  }

  lemma NegativeDigits(p: string, t: string)
    requires |p| > 0 && AllDigits(p) && DigitRun(p + t) == |p| && (p + t)[..|p|] == p && (p + t)[|p|..] == t
    ensures ReadInt("-" + p + t) == Some((-(DigitsValue(p) as int), t))
  {
    var s := "-" + p + t;
    assert s[0] == '-' && s[1..] == p + t;
  }

  lemma UnsignedDigits(p: string, t: string)
    requires |p| > 0 && AllDigits(p) && DigitRun(p + t) == |p| && (p + t)[..|p|] == p && (p + t)[|p|..] == t
    ensures ReadInt(p + t) == Some((DigitsValue(p), t))
  {
    assert (p + t)[0] == p[0];
  }

  /** Digits of a natural number followed by a non-digit: the digit run is
      exactly the number's text, and it has the number's value. */
  lemma NatStrThen(n: nat, t: string)
    requires t == [] || !IsDigit(t[0])
    ensures var p := NatStr(n);
      && DigitRun(p + t) == |p| && (p + t)[..|p|] == p && (p + t)[|p|..] == t
      && DigitsValue(p) == n
  {
    DigitsValueOfNatStr(n);
    DigitRunOfDigitsThen(NatStr(n), t);
    var p := NatStr(n);
    assert (p + t)[..|p|] == p && (p + t)[|p|..] == t;
  }

  /** An explicit plus sign before a natural number is read over. */
  lemma PlusNatStrReadBack(n: nat, t: string)
    requires t == [] || !IsDigit(t[0])
    ensures ReadInt("+" + NatStr(n) + t) == Some((n, t))
  {
    NatStrThen(n, t);
    var s := "+" + NatStr(n) + t;
    assert s[0] == '+' && s[1..] == NatStr(n) + t;
  }

  /** A leading zero does not change the value of a digit string. */
  lemma {:induction false} DigitsValueLeadingZero(p: string)
    requires AllDigits(p)
    ensures AllDigits("0" + p) && DigitsValue("0" + p) == DigitsValue(p)
    decreases |p|
  {
    var q := "0" + p;
    if |p| > 0 {
      assert q[..|q| - 1] == "0" + p[..|p| - 1];
      DigitsValueLeadingZero(p[..|p| - 1]);
    } else {
      assert q[..|q| - 1] == [];
    }
  }

  /** A leading zero before a natural number is read over. */
  lemma ZeroNatStrReadBack(n: nat, t: string)
    requires t == [] || !IsDigit(t[0])
    ensures ReadInt("0" + NatStr(n) + t) == Some((n, t))
  {
    NatStrThen(n, t);
    ZeroThenDigits(NatStr(n), t);
  }

  lemma ZeroThenDigits(p: string, t: string)
    requires AllDigits(p) && DigitRun(p + t) == |p| && (p + t)[|p|..] == t
    ensures ReadInt("0" + p + t) == Some((DigitsValue(p), t))
  {
    DigitsValueLeadingZero(p);
    var s := "0" + p + t;
    assert s[1..] == p + t;
    assert DigitRun(s) == 1 + |p|;
    assert s[..1 + |p|] == "0" + p && s[1 + |p|..] == t;
  }

  /** A zero-padded two-digit field parses to its number. */
  lemma ParsePad2(n: int)
    requires 0 <= n < 100
    ensures ParseInt(Pad2(n)) == Some(n)
  {
    var p := Pad2(n);
    DigitRunOfDigitsThen(p, "");
    assert p + "" == p && p[..2] == p && p[..1] == [p[0]] && [p[0]][..0] == [];
    assert DigitsValue(p[..1]) == DigitValue(p[0]);
    assert DigitsValue(p) == 10 * DigitValue(p[0]) + DigitValue(p[1]);
  }

  /** `s.split(sep)`: the fields between occurrences of `sep`. */
  function Split(s: string, sep: char): (parts: seq<string>)
    ensures |parts| >= 1
    ensures forall i :: 0 <= i < |parts| ==> sep !in parts[i]
    decreases |s|
  {
    if |s| == 0 then [""]
    else
      var rest := Split(s[1..], sep);
      if s[0] == sep then [""] + rest else [[s[0]] + rest[0]] + rest[1..]
  }

  /** `parts.join(sep)`. */
  function Join(parts: seq<string>, sep: char): string
    requires |parts| >= 1
    decreases |parts|
  {
    if |parts| == 1 then parts[0] else parts[0] + [sep] + Join(parts[1..], sep)
  }

  /** Joining the fields of a split gives back the string. */
  lemma {:induction false} JoinSplit(s: string, sep: char)
    ensures Join(Split(s, sep), sep) == s
    decreases |s|
  {
    if |s| > 0 {
      var rest := Split(s[1..], sep);
      JoinSplit(s[1..], sep);
      if s[0] == sep {
        var parts := [""] + rest;
        assert parts[1..] == rest;
        assert Join(parts, sep) == "" + [sep] + Join(rest, sep);
        assert s == [sep] + s[1..];
      } else {
        JoinFirstFieldCons(s[0], rest, sep);
        assert s == [s[0]] + s[1..];
      }
    }
  }

  /** Putting a character in front of the first field puts it in front of the join. */
  lemma JoinFirstFieldCons(c: char, parts: seq<string>, sep: char)
    requires |parts| >= 1
    ensures Join([[c] + parts[0]] + parts[1..], sep) == [c] + Join(parts, sep)
  {
    var q := [[c] + parts[0]] + parts[1..];
    if |parts| > 1 {
      assert q[1..] == parts[1..];
      var j := Join(parts[1..], sep);
      assert ([c] + parts[0]) + [sep] + j == [c] + (parts[0] + [sep] + j);
    }
  }

  /** A field without the separator, followed by more text, is split off whole. */
  lemma {:induction false} SplitField(p: string, x: string, sep: char)
    requires sep !in p
    ensures Split(p + x, sep) == [p + Split(x, sep)[0]] + Split(x, sep)[1..]
    decreases |p|
  {
    if |p| == 0 {
      var q := Split(x, sep);
      assert p + x == x && p + q[0] == q[0];
      assert q == [q[0]] + q[1..];
    } else {
      assert (p + x)[1..] == p[1..] + x;
      SplitField(p[1..], x, sep);
      assert [p[0]] + (p[1..] + Split(x, sep)[0]) == p + Split(x, sep)[0];
    }
  }

  /** Splitting fields joined by the separator gives back the fields. */
  lemma {:induction false} SplitJoin(parts: seq<string>, sep: char)
    requires |parts| >= 1
    requires forall i :: 0 <= i < |parts| ==> sep !in parts[i]
    ensures Split(Join(parts, sep), sep) == parts
    decreases |parts|
  {
    if |parts| == 1 {
      SplitField(parts[0], "", sep);
      assert parts[0] + "" == parts[0];
    } else {
      var tail := Join(parts[1..], sep);
      SplitJoin(parts[1..], sep);
      assert Split([sep] + tail, sep) == [""] + parts[1..];
      assert parts[0] + [sep] + tail == parts[0] + ([sep] + tail);
      SplitField(parts[0], [sep] + tail, sep);
      assert parts[0] + "" == parts[0];
      assert parts == [parts[0]] + parts[1..];
    }
  }
}
