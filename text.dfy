/**
 * The few Python string built-ins the streamer relies on: `str.split` with a
 * one-character separator, `str.strip`, `int(text)` and `str(number)`.
 *
 * `int` is modelled on ASCII text: the ASCII whitespace `int()` skips around
 * the number (not the separator controls `str.strip()` also removes), an
 * optional sign and one or more decimal digits. Python also accepts
 * underscores between digits and non-ASCII digits and spaces; those are not
 * modelled.
 */
module Text {
  import opened Wrappers

  // ---------------------------------------------------------------------------
  // str.split(sep) for a one-character separator
  // ---------------------------------------------------------------------------

  /** The pieces of `s` between occurrences of `sep`, as Python's `s.split(sep)`. */
  function Split(s: string, sep: char): (parts: seq<string>)
    ensures |parts| >= 1
    decreases |s|
  {
    if s == [] then [[]]
    else
      var rest := Split(s[1..], sep);
      if s[0] == sep then [[]] + rest
      else [[s[0]] + rest[0]] + rest[1..]
  }

  /** `sep.join(parts)`: the partner of Split. */
  function Join(parts: seq<string>, sep: char): string
    requires |parts| >= 1
    decreases |parts|
  {
    if |parts| == 1 then parts[0] else parts[0] + [sep] + Join(parts[1..], sep)
  }

  /** Joining the pieces back gives the original text. */
  lemma {:induction false} JoinSplit(s: string, sep: char)
    ensures Join(Split(s, sep), sep) == s
    decreases |s|
  {
    if s != [] {
      JoinSplit(s[1..], sep);
      var rest := Split(s[1..], sep);
      if s[0] == sep {
        assert Split(s, sep)[1..] == rest;
      } else if |rest| == 1 {
        assert [s[0]] + rest[0] == s;
      } else {
        var parts := Split(s, sep);
        assert parts[1..] == rest[1..];
        assert Join(rest, sep) == rest[0] + [sep] + Join(rest[1..], sep);
        assert s == [s[0]] + s[1..];
      }
    }
  }

  /** No piece contains the separator. */
  lemma {:induction false} SplitPartsLackSep(s: string, sep: char)
    ensures forall k :: 0 <= k < |Split(s, sep)| ==> sep !in Split(s, sep)[k]
    decreases |s|
  {
    if s != [] {
      SplitPartsLackSep(s[1..], sep);
      var rest := Split(s[1..], sep);
      var parts := Split(s, sep);
      if s[0] != sep {
        forall k | 0 <= k < |parts| ensures sep !in parts[k] {
          if k > 0 { assert parts[k] == rest[k]; }
        }
      } else {
        forall k | 0 <= k < |parts| ensures sep !in parts[k] {
          if k > 0 { assert parts[k] == rest[k - 1]; }
        }
      }
    }
  }

  /** Text without the separator is not split. */
  lemma {:induction false} SplitWithoutSep(s: string, sep: char)
    requires sep !in s
    ensures Split(s, sep) == [s]
    decreases |s|
  {
    if s != [] {
      SplitWithoutSep(s[1..], sep);
      assert [s[0]] + s[1..] == s;
    }
  }

  /** The first piece is everything before the first separator. */
  lemma {:induction false} SplitAtFirst(a: string, sep: char, b: string)
    requires sep !in a
    ensures Split(a + [sep] + b, sep) == [a] + Split(b, sep)
    decreases |a|
  {
    if a == [] {
      assert (a + [sep] + b)[1..] == b;
    } else {
      SplitAtFirst(a[1..], sep, b);
      assert (a + [sep] + b)[1..] == a[1..] + [sep] + b;
      assert [a[0]] + a[1..] == a;
    }
  }

  /** `sep` occurs in `s` exactly once, at position i. */
  predicate OnlyAt(s: string, sep: char, i: int) {
    0 <= i < |s| && s[i] == sep && sep !in s[..i] && sep !in s[i + 1..]
  }

  /**
   * A text splits into exactly two pieces when the separator occurs in it
   * exactly once, and the pieces are the text on either side of it.
   */
  lemma SplitInTwo(s: string, sep: char)
    ensures forall i :: OnlyAt(s, sep, i) ==> Split(s, sep) == [s[..i], s[i + 1..]]
    ensures |Split(s, sep)| == 2 ==> OnlyAt(s, sep, |Split(s, sep)[0]|)
  {
    forall i | OnlyAt(s, sep, i)
      ensures Split(s, sep) == [s[..i], s[i + 1..]]
    {
      assert s == s[..i] + [sep] + s[i + 1..];
      SplitAtFirst(s[..i], sep, s[i + 1..]);
      SplitWithoutSep(s[i + 1..], sep);
    }
    var parts := Split(s, sep);
    if |parts| == 2 {
      JoinSplit(s, sep);
      SplitPartsLackSep(s, sep);
      assert s == parts[0] + [sep] + parts[1];
      var i := |parts[0]|;
      assert s[..i] == parts[0] && s[i + 1..] == parts[1];
    }
  }

  /** Splitting the join of separator-free pieces gives the pieces back. */
  lemma {:induction false} SplitJoin(parts: seq<string>, sep: char)
    requires |parts| >= 1
    requires forall k :: 0 <= k < |parts| ==> sep !in parts[k]
    ensures Split(Join(parts, sep), sep) == parts
    decreases |parts|
  {
    if |parts| == 1 {
      SplitWithoutSep(parts[0], sep);
    } else {
      SplitJoin(parts[1..], sep);
      SplitAtFirst(parts[0], sep, Join(parts[1..], sep));
      assert [parts[0]] + parts[1..] == parts;
    }
  }

  /** A string holds the separator exactly when it splits into more than one piece. */
  lemma SplitCountsSep(s: string, sep: char)
    ensures |Split(s, sep)| >= 2 <==> sep in s
  {
    JoinSplit(s, sep);
    var parts := Split(s, sep);
    if |parts| == 1 {
      SplitPartsLackSep(s, sep);
      assert s == parts[0];
    } else {
      assert s == parts[0] + [sep] + Join(parts[1..], sep);
      assert s[|parts[0]|] == sep;
    }
  }

  // ---------------------------------------------------------------------------
  // str.strip()
  // ---------------------------------------------------------------------------

  /**
   * The ASCII characters Python counts as whitespace and `str.strip()` removes:
   * space, tab, the line breaks, vertical tab, form feed and the four
   * separator controls U+001C to U+001F.
   */
  predicate IsSpace(c: char) {
    || c == ' ' || c == '\t' || c == '\n' || c == '\r' || c == '\U{000B}' || c == '\U{000C}'
    || c == '\U{001C}' || c == '\U{001D}' || c == '\U{001E}' || c == '\U{001F}'
  }

  /**
   * The ASCII whitespace `int()` skips around a number: space, tab, the line
   * breaks, vertical tab and form feed. Unlike `str.strip()`, `int()` does not
   * skip the separator controls U+001C to U+001F.
   */
  predicate IsIntSpace(c: char) {
    c == ' ' || c == '\t' || c == '\n' || c == '\r' || c == '\U{000B}' || c == '\U{000C}'
  }

  /** Drops the leading characters `ws` holds. */
  function StripLeft(s: string, ws: char -> bool): string
    decreases |s|
  {
    if s != [] && ws(s[0]) then StripLeft(s[1..], ws) else s
  }

  /** Drops the trailing characters `ws` holds. */
  function StripRight(s: string, ws: char -> bool): string
    decreases |s|
  {
    if s != [] && ws(s[|s| - 1]) then StripRight(s[..|s| - 1], ws) else s
  }

  /** Drops the characters `ws` holds from both ends and nothing else. */
  function StripWith(s: string, ws: char -> bool): (r: string)
    ensures |r| <= |s|
    ensures r != [] ==> !ws(r[0]) && !ws(r[|r| - 1])
  {
    StripLeftSuffix(s, ws);
    StripRightPrefix(StripLeft(s, ws), ws);
    StripRight(StripLeft(s, ws), ws)
  }

  /** `s.strip()`: drops leading and trailing whitespace and nothing else. */
  function Strip(s: string): (r: string)
    ensures |r| <= |s|
    ensures r != [] ==> !IsSpace(r[0]) && !IsSpace(r[|r| - 1])
  {
    StripWith(s, IsSpace)
  }

  /** The text `int()` reads: its argument without the whitespace `int()` skips at either end. */
  function IntStrip(s: string): (r: string)
    ensures |r| <= |s|
    ensures r != [] ==> !IsIntSpace(r[0]) && !IsIntSpace(r[|r| - 1])
  {
    StripWith(s, IsIntSpace)
  }

  /** Stripping the left drops a prefix made only of `ws` characters and leaves none in front. */
  lemma {:induction false} StripLeftSuffix(s: string, ws: char -> bool)
    ensures |StripLeft(s, ws)| <= |s| && StripLeft(s, ws) == s[|s| - |StripLeft(s, ws)|..]
    ensures forall k :: 0 <= k < |s| - |StripLeft(s, ws)| ==> ws(s[k])
    ensures StripLeft(s, ws) != [] ==> !ws(StripLeft(s, ws)[0])
    decreases |s|
  {
    if s != [] && ws(s[0]) {
      StripLeftSuffix(s[1..], ws);
    }
  }

  /** Stripping the right drops a suffix made only of `ws` characters and leaves none at the end. */
  lemma {:induction false} StripRightPrefix(s: string, ws: char -> bool)
    ensures |StripRight(s, ws)| <= |s| && StripRight(s, ws) == s[..|StripRight(s, ws)|]
    ensures forall k :: |StripRight(s, ws)| <= k < |s| ==> ws(s[k])
    ensures StripRight(s, ws) != [] ==> !ws(StripRight(s, ws)[|StripRight(s, ws)| - 1])
    decreases |s|
  {
    if s != [] && ws(s[|s| - 1]) {
      StripRightPrefix(s[..|s| - 1], ws);
    }
  }

  /**
   * What stripping keeps is one contiguous slice of the text, with a `ws`
   * character at neither end, and everything it drops before and after it is
   * made of `ws` characters.
   */
  lemma StripTrims(s: string, ws: char -> bool)
    ensures exists i, j :: 0 <= i <= j <= |s| && StripWith(s, ws) == s[i..j] && AllOf(s[..i], ws) && AllOf(s[j..], ws)
  {
    var l := StripLeft(s, ws);
    var t := StripRight(l, ws);
    StripLeftSuffix(s, ws);
    StripRightPrefix(l, ws);
    var i := |s| - |l|;
    var j := i + |t|;
    assert t == s[i..j];
    assert AllOf(s[..i], ws);
    assert AllOf(s[j..], ws) by {
      forall k | 0 <= k < |s| - j ensures ws(s[j..][k]) {
        assert s[j..][k] == l[|t| + k];
      }
    }
  }

  /** Every character of the text is one `ws` holds. */
  predicate AllOf(s: string, ws: char -> bool) {
    forall k :: 0 <= k < |s| ==> ws(s[k])
  }

  /** Text that neither starts nor ends with a `ws` character is left alone. */
  lemma StripUnpadded(s: string, ws: char -> bool)
    requires s != [] && !ws(s[0]) && !ws(s[|s| - 1])
    ensures StripWith(s, ws) == s
  {
  }

  // ---------------------------------------------------------------------------
  // int(text) and str(number)
  // ---------------------------------------------------------------------------

  predicate IsDigit(c: char) {
    '0' <= c <= '9'
  }

  /** One or more decimal digits and nothing else. */
  predicate IsDigits(s: string) {
    |s| > 0 && forall k :: 0 <= k < |s| ==> IsDigit(s[k])
  }

  /** The value of a run of decimal digits, most significant first. */
  function DigitsValue(s: string): nat
    requires forall k :: 0 <= k < |s| ==> IsDigit(s[k])
    decreases |s|
  {
    if s == [] then 0
    else
      assert IsDigit(s[|s| - 1]);
      DigitsValue(s[..|s| - 1]) * 10 + (s[|s| - 1] as int - '0' as int)
  }

  /** The value of a run of decimal digits; None when it is empty or holds anything else. */
  function ParseDigits(s: string): Option<nat>
    decreases |s|
  {
    if s == [] || !IsDigit(s[|s| - 1]) then None
    else
      var d := s[|s| - 1] as int - '0' as int;
      if |s| == 1 then Some(d)
      else
        match ParseDigits(s[..|s| - 1])
        case None => None
        case Some(v) => Some(v * 10 + d)
  }

  /** ParseDigits accepts exactly the runs of digits and reads them most significant first. */
  lemma {:induction false} ParseDigitsIff(s: string)
    ensures ParseDigits(s).Some? <==> IsDigits(s)
    ensures ParseDigits(s).Some? ==> ParseDigits(s).value == DigitsValue(s)
    decreases |s|
  {
    if s != [] && IsDigit(s[|s| - 1]) {
      var p := s[..|s| - 1];
      assert forall k :: 0 <= k < |p| ==> p[k] == s[k];
      if |s| > 1 {
        ParseDigitsIff(p);
      } else {
        assert p == [];
      }
    }
  }

  /**
   * `int(text)` on ASCII text: None where Python raises ValueError.
   * Accepts the whitespace `int()` skips around the number, one optional sign
   * and decimal digits.
   */
  function ParseInt(text: string): (r: Option<int>)
    ensures r.Some? ==> IntStrip(text) != [] && forall k :: 1 <= k < |IntStrip(text)| ==> IsDigit(IntStrip(text)[k])
    ensures r.Some? && r.value < 0 ==> IntStrip(text)[0] == '-'
  {
    var t := IntStrip(text);
    ParseDigitsIff(t);
    ParseDigitsIff(if t == [] then t else t[1..]);
    if t != [] && (t[0] == '-' || t[0] == '+') then
      match ParseDigits(t[1..])
      case None => None
      case Some(v) => Some(if t[0] == '-' then -(v as int) else v)
    else
      match ParseDigits(t)
      case None => None
      case Some(v) => Some(v)
  }

  /** What `int(text)` accepts, and the value it gives. */
  lemma ParseIntIff(text: string)
    ensures var t := IntStrip(text);
      ParseInt(text).Some? <==> IsDigits(t) || (|t| > 1 && t[0] in "+-" && IsDigits(t[1..]))
    ensures var t := IntStrip(text);
      IsDigits(t) ==> ParseInt(text) == Some(DigitsValue(t) as int)
    ensures var t := IntStrip(text);
      |t| > 1 && t[0] in "+-" && IsDigits(t[1..]) ==>
        ParseInt(text) == Some(if t[0] == '-' then -(DigitsValue(t[1..]) as int) else DigitsValue(t[1..]))
  {
    var t := IntStrip(text);
    ParseDigitsIff(t);
    if t != [] {
      ParseDigitsIff(t[1..]);
      if t[0] in "+-" {
        assert !IsDigits(t);
      }
    }
  }

  /** `str.strip()` drops a trailing U+001F, but `int()` does not skip it: `int("5\x1f")` raises. */
  lemma IntKeepsSeparatorControl()
    ensures Strip("5\U{001F}") == "5"
    ensures ParseInt("5\U{001F}") == None
  {
    var s := "5\U{001F}";
    StripUnpadded(s, IsIntSpace);
    assert IntStrip(s) == s;
    assert s[..1] == "5";
    assert StripRight(s, IsSpace) == "5";
  }

  /** The decimal digit for 0 <= d < 10. */
  function DigitChar(d: nat): (c: char)
    requires d < 10
    ensures IsDigit(c) && c as int - '0' as int == d
  {
    ('0' as int + d) as char
  }

  /** `str(n)` for a natural number. */
  function NatStr(n: nat): (s: string)
    decreases n
  {
    if n < 10 then [DigitChar(n)] else NatStr(n / 10) + [DigitChar(n % 10)]
  }

  /** `str(i)` for an integer. */
  function IntStr(i: int): string {
    if i < 0 then "-" + NatStr(-i) else NatStr(i)
  }

  /** `str(n)` is a run of digits whose value is n. */
  lemma {:induction false} NatStrDigits(n: nat)
    ensures IsDigits(NatStr(n)) && DigitsValue(NatStr(n)) == n
    decreases n
  {
    if n >= 10 {
      NatStrDigits(n / 10);
      var s := NatStr(n);
      assert s[..|s| - 1] == NatStr(n / 10);
    }
  }

  /** `int(str(n)) == n` for a natural number. */
  lemma {:induction false} ParseNatStr(n: nat)
    ensures ParseInt(NatStr(n)) == Some(n)
  {
    NatStrDigits(n);
    var s := NatStr(n);
    StripUnpadded(s, IsIntSpace);
    ParseDigitsIff(s);
    assert IntStrip(s) == s && IsDigit(s[0]);
  }

  /** `int(str(i)) == i` for a negative number: `str(i)` is a minus sign before `str(-i)`. */
  lemma {:induction false} ParseNegStr(i: int)
    requires i < 0
    ensures ParseInt(IntStr(i)) == Some(i)
  {
    NatStrDigits(-i);
    var d := NatStr(-i);
    var s := "-" + d;
    assert s[1..] == d && s[|s| - 1] == d[|d| - 1];
    StripUnpadded(s, IsIntSpace);
    ParseDigitsIff(d);
    assert ParseInt(s) == Some(i);
    assert IntStr(i) == s;
  }

  /** `int(str(i)) == i`: the two conversions are inverse. */
  lemma {:induction false} ParseIntStr(i: int)
    ensures ParseInt(IntStr(i)) == Some(i)
  {
    if i < 0 {
      ParseNegStr(i);
    } else {
      assert IntStr(i) == NatStr(i);
      ParseNatStr(i);
    }
  }

  /** `str(i)` holds only a sign and digits. */
  lemma IntStrChars(i: int)
    ensures forall k :: 0 <= k < |IntStr(i)| ==> IntStr(i)[k] == '-' || IsDigit(IntStr(i)[k])
  {
    var n: nat := if i < 0 then -i else i;
    NatStrDigits(n);
    if i < 0 {
      var s := IntStr(i);
      forall k | 0 <= k < |s| ensures s[k] == '-' || IsDigit(s[k]) {
        if k > 0 { assert s[k] == NatStr(n)[k - 1]; }
      }
    }
  }
}
