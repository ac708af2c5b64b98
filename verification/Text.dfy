/**
 * Models of the handful of Python string operations the puzzle scripts use:
 * `str.split(sep)`, `str.split()`, `str.strip(chars)`, `str.isdigit()`,
 * `str(n)` for naturals and `int(s)`.  Only ASCII digits and ASCII
 * whitespace are recognised.
 */
module Text {
  import opened Base

  /** The ASCII characters Python's `str.isspace` accepts: space, tab, the line ends and the separators 0x1C-0x1F. */
  const Whitespace: set<char> := {' ', '\t', '\n', '\r', '\U{B}', '\U{C}', '\U{1C}', '\U{1D}', '\U{1E}', '\U{1F}'}

  predicate IsSpace(c: char) { c in Whitespace }

  predicate IsDigit(c: char) { '0' <= c <= '9' }

  predicate AllDigits(s: string) { forall i :: 0 <= i < |s| ==> IsDigit(s[i]) }

  /** `s.isdigit()`: non-empty and every character a digit. */
  predicate IsDigits(s: string) { |s| > 0 && AllDigits(s) }

  function DigitChar(d: nat): (c: char)
    requires d < 10
    ensures IsDigit(c)
  {
    ('0' as int + d) as char
  }

  function DigitValue(c: char): (d: nat)
    requires IsDigit(c)
    ensures d < 10 && DigitChar(d) == c
  {
    c as int - '0' as int
  }

  /** Value of a string of decimal digits, most significant first. */
  function DigitsValue(s: string): nat
    requires AllDigits(s)
  {
    if s == [] then 0 else DigitsValue(s[..|s| - 1]) * 10 + DigitValue(s[|s| - 1])
  }

  /** `str(n)` for a natural number: its decimal digits without leading zeros. */
  function NatToString(n: nat): (s: string)
    ensures IsDigits(s)
    ensures |s| == 1 <==> n < 10
    ensures s[0] != '0' || n == 0
  {
    if n < 10 then [DigitChar(n)] else NatToString(n / 10) + [DigitChar(n % 10)]
  }

  /** Reading back the digits `str(n)` prints gives `n`. */
  lemma {:induction false} NatToStringValue(n: nat)
    ensures DigitsValue(NatToString(n)) == n
  {
    if n >= 10 {
      var s := NatToString(n);
      assert s[..|s| - 1] == NatToString(n / 10);
      NatToStringValue(n / 10);
    }
  }

  /** `s.lstrip(chars)`. */
  function StripLeft(s: string, chars: set<char>): (r: string)
    ensures |r| <= |s|
  {
    if |s| > 0 && s[0] in chars then StripLeft(s[1..], chars) else s
  }

  /** `s.rstrip(chars)`. */
  function StripRight(s: string, chars: set<char>): (r: string)
    ensures |r| <= |s|
  {
    if |s| > 0 && s[|s| - 1] in chars then StripRight(s[..|s| - 1], chars) else s
  }

  /** `s.strip(chars)`. */
  function StripChars(s: string, chars: set<char>): string
  {
    StripRight(StripLeft(s, chars), chars)
  }

  /** `s.strip()`. */
  function Strip(s: string): string
  {
    StripChars(s, Whitespace)
  }

  lemma {:induction false} StripLeftBlank(s: string, chars: set<char>)
    ensures StripLeft(s, chars) == "" <==> forall i :: 0 <= i < |s| ==> s[i] in chars
    ensures StripLeft(s, chars) != "" ==> StripLeft(s, chars)[0] !in chars
  {
    if |s| > 0 && s[0] in chars {
      StripLeftBlank(s[1..], chars);
      assert forall i :: 1 <= i < |s| ==> s[i] == s[1..][i - 1];
    }
  }

  lemma {:induction false} StripRightKeepsHead(s: string, chars: set<char>)
    requires |s| > 0 && s[0] !in chars
    ensures StripRight(s, chars) != ""
  {
    if |s| > 1 && s[|s| - 1] in chars {
      StripRightKeepsHead(s[..|s| - 1], chars);
    }
  }

  /** `s.strip() == ""` exactly when every character of `s` is whitespace. */
  lemma StripBlank(s: string)
    ensures Strip(s) == "" <==> forall i :: 0 <= i < |s| ==> IsSpace(s[i])
  {
    StripLeftBlank(s, Whitespace);
    var t := StripLeft(s, Whitespace);
    if t != "" {
      StripRightKeepsHead(t, Whitespace);
    }
  }

  /** Python `int(s)`: surrounding whitespace, an optional sign, then ASCII digits. */
  function ParseInt(s: string): Option<int>
  {
    var t := Strip(s);
    if |t| > 0 && (t[0] == '-' || t[0] == '+') then
      if IsDigits(t[1..]) then
        var v: int := DigitsValue(t[1..]);
        Some(if t[0] == '-' then -v else v)
      else None
    else if IsDigits(t) then Some(DigitsValue(t))
    else None
  }

  /** `int('')` raises ValueError. */
  lemma ParseIntEmpty()
    ensures ParseInt("") == None
  {
    assert Strip("") == "";
  }

  /** A plain digit string is read as its decimal value. */
  lemma ParseIntDigits(s: string)
    requires IsDigits(s)
    ensures ParseInt(s) == Some(DigitsValue(s))
  {
    assert IsDigit(s[0]) && IsDigit(s[|s| - 1]);
    assert s[0] !in Whitespace && s[|s| - 1] !in Whitespace;
    assert StripLeft(s, Whitespace) == s;
    assert StripRight(s, Whitespace) == s;
    assert Strip(s) == s;
    assert s[0] != '-' && s[0] != '+';
  }

  /** `int(str(n)) == n`. */
  lemma ParseIntOfNatToString(n: nat)
    ensures ParseInt(NatToString(n)) == Some(n)
  {
    NatToStringValue(n);
    ParseIntDigits(NatToString(n));
  }

  /** The parts of `s` joined with `sep` in between (the inverse of `Split`). */
  function Join(parts: seq<string>, sep: char): string
  {
    if parts == [] then ""
    else if |parts| == 1 then parts[0]
    else parts[0] + [sep] + Join(parts[1..], sep)
  }

  /** Python `s.split(sep)` for a one-character separator. */
  function Split(s: string, sep: char): (parts: seq<string>)
    ensures |parts| >= 1
    ensures forall k :: 0 <= k < |parts| ==> sep !in parts[k]
  {
    if |s| == 0 then [""]
    else
      var rest := Split(s[1..], sep);
      if s[0] == sep then [""] + rest
      else [[s[0]] + rest[0]] + rest[1..]
  }

  /** Splitting and joining again gives the original string back. */
  lemma {:induction false} JoinSplit(s: string, sep: char)
    ensures Join(Split(s, sep), sep) == s
  {
    if |s| > 0 {
      var rest := Split(s[1..], sep);
      JoinSplit(s[1..], sep);
      if s[0] == sep {
        assert Split(s, sep)[1..] == rest;
      } else {
        var parts := Split(s, sep);
        if |rest| == 1 {
          assert parts == [[s[0]] + rest[0]];
        } else {
          assert parts[1..] == rest[1..];
        }
      }
    }
  }

  /** Joining parts that do not contain the separator and splitting again gives the parts back. */
  lemma {:induction false} SplitJoin(parts: seq<string>, sep: char)
    requires |parts| >= 1
    requires forall k :: 0 <= k < |parts| ==> sep !in parts[k]
    ensures Split(Join(parts, sep), sep) == parts
    decreases |parts|, |parts[0]|
  {
    if |parts| == 1 {
      SplitNoSep(parts[0], sep);
    } else if parts[0] == "" {
      SplitJoin(parts[1..], sep);
      assert Join(parts, sep) == [sep] + Join(parts[1..], sep);
      assert Join(parts, sep)[1..] == Join(parts[1..], sep);
    } else {
      var tail := [parts[0][1..]] + parts[1..];
      assert tail[1..] == parts[1..];
      SplitJoin(tail, sep);
      assert Join(parts, sep) == [parts[0][0]] + Join(tail, sep);
      assert Join(parts, sep)[1..] == Join(tail, sep);
      assert [parts[0][0]] + parts[0][1..] == parts[0];
      assert parts == [[parts[0][0]] + tail[0]] + tail[1..];
    }
  }

  lemma {:induction false} SplitNoSep(s: string, sep: char)
    requires sep !in s
    ensures Split(s, sep) == [s]
  {
    if |s| > 0 {
      assert sep !in s[1..] by {
        forall i | 0 <= i < |s| - 1 ensures s[1..][i] != sep { assert s[1..][i] == s[i + 1]; }
      }
      SplitNoSep(s[1..], sep);
      assert s == [s[0]] + s[1..];
    }
  }

  /** Python `s.split()`: the maximal runs of non-whitespace characters. */
  function Words(s: string): (ws: seq<string>)
    ensures forall k :: 0 <= k < |ws| ==> |ws[k]| > 0 && forall i :: 0 <= i < |ws[k]| ==> !IsSpace(ws[k][i])
    ensures |s| > 0 && !IsSpace(s[0]) ==> |ws| > 0 && ws[0][0] == s[0]
  {
    if |s| == 0 then []
    else
      var rest := Words(s[1..]);
      if IsSpace(s[0]) then rest
      else if |s| == 1 || IsSpace(s[1]) then [[s[0]]] + rest
      else [[s[0]] + rest[0]] + rest[1..]
  }

  /** Concatenation of a sequence of strings (Python `"".join(parts)`). */
  function Concat(parts: seq<string>): string
  {
    if parts == [] then "" else parts[0] + Concat(parts[1..])
  }

  /** The characters of `s` that are not whitespace, in order. */
  function NonSpace(s: string): (r: string)
    ensures forall i :: 0 <= i < |r| ==> !IsSpace(r[i])
  {
    if s == [] then "" else (if IsSpace(s[0]) then "" else [s[0]]) + NonSpace(s[1..])
  }

  /** `"".join(s.split())` removes exactly the whitespace characters of `s`. */
  lemma {:induction false} ConcatWords(s: string)
    ensures Concat(Words(s)) == NonSpace(s)
  {
    if |s| > 0 {
      ConcatWords(s[1..]);
      var rest := Words(s[1..]);
      if !IsSpace(s[0]) && !(|s| == 1 || IsSpace(s[1])) {
        assert Words(s) == [[s[0]] + rest[0]] + rest[1..];
        assert Concat(rest) == rest[0] + Concat(rest[1..]);
        assert Concat(Words(s)) == [s[0]] + rest[0] + Concat(rest[1..]);
      }
    }
  }

  /** A string with only whitespace has no words, and otherwise has at least one. */
  lemma {:induction false} WordsEmpty(s: string)
    ensures Words(s) == [] <==> forall i :: 0 <= i < |s| ==> IsSpace(s[i])
  {
    if |s| > 0 {
      WordsEmpty(s[1..]);
      if IsSpace(s[0]) {
        assert forall i :: 1 <= i < |s| ==> s[i] == s[1..][i - 1];
      }
    }
  }

  /**
   * Python `low, high = token.split('-')` followed by `(int(low), int(high))`;
   * `None` where either step raises ValueError.
   */
  function TokenRange(token: string): Option<(int, int)>
  {
    var parts := Split(token, '-');
    if |parts| == 2 && ParseInt(parts[0]).Some? && ParseInt(parts[1]).Some? then
      Some((ParseInt(parts[0]).value, ParseInt(parts[1]).value))
    else None
  }

  /** `int()` of a string without '-' is never negative. */
  lemma ParseIntNoMinus(s: string)
    requires '-' !in s && ParseInt(s).Some?
    ensures ParseInt(s).value >= 0
  {
    var t := Strip(s);
    StripInside(s);
    assert '-' !in t;
  }

  /** Every character of `s.strip()` is a character of `s`. */
  lemma StripInside(s: string)
    ensures forall c :: c in Strip(s) ==> c in s
  {
    StripLeftInside(s, Whitespace);
    StripRightInside(StripLeft(s, Whitespace), Whitespace);
  }

  lemma {:induction false} StripLeftInside(s: string, chars: set<char>)
    ensures forall c :: c in StripLeft(s, chars) ==> c in s
  {
    if |s| > 0 && s[0] in chars {
      StripLeftInside(s[1..], chars);
    }
  }

  lemma {:induction false} StripRightInside(s: string, chars: set<char>)
    ensures forall c :: c in StripRight(s, chars) ==> c in s
  {
    if |s| > 0 && s[|s| - 1] in chars {
      StripRightInside(s[..|s| - 1], chars);
    }
  }

  /** The token `low-high` for a range of naturals. */
  function RangeToken(lo: nat, hi: nat): string
  {
    NatToString(lo) + "-" + NatToString(hi)
  }

  lemma DigitsHaveNoSeparators(n: nat)
    ensures '-' !in NatToString(n) && ',' !in NatToString(n)
  {
    var s := NatToString(n);
    assert forall i :: 0 <= i < |s| ==> IsDigit(s[i]);
  }

  lemma TokenRangeOfToken(lo: nat, hi: nat)
    ensures TokenRange(RangeToken(lo, hi)) == Some((lo, hi))
  {
    DigitsHaveNoSeparators(lo);
    DigitsHaveNoSeparators(hi);
    var parts := [NatToString(lo), NatToString(hi)];
    assert Join(parts, '-') == RangeToken(lo, hi);
    SplitJoin(parts, '-');
    ParseIntOfNatToString(lo);
    ParseIntOfNatToString(hi);
  }

  /** A parsed `low-high` token never has a negative bound: every '-' splits the token. */
  lemma TokenRangeNatural(token: string)
    requires TokenRange(token).Some?
    ensures TokenRange(token).value.0 >= 0 && TokenRange(token).value.1 >= 0
  {
    var parts := Split(token, '-');
    ParseIntNoMinus(parts[0]);
    ParseIntNoMinus(parts[1]);
  }
}
