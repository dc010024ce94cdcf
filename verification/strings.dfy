/** The handful of Python string operations that version parsing relies on:
    `str.split` on one separator character and its inverse `str.join`,
    `str.strip()` with no argument, `str.isdigit` and `int` on a digit string,
    and `str.endswith`. Strings are `seq<char>`. */
module Strings {

  /* ---------------------------------------------------------------------
     Splitting on a separator, and joining back
     --------------------------------------------------------------------- */

  /** `sep.join(parts)`: the parts with one separator between neighbours. */
  function Join(parts: seq<string>, sep: char): string
    requires |parts| >= 1
    decreases |parts|
  {
    if |parts| == 1 then parts[0] else parts[0] + [sep] + Join(parts[1..], sep)
  }

  /** `s.split(sep)`: the maximal separator-free pieces of `s`, in order.
      Like Python, the empty string splits into one empty piece and two
      adjacent separators produce an empty piece between them. */
  function Split(s: string, sep: char): (parts: seq<string>)
    ensures |parts| >= 1
    ensures forall i :: 0 <= i < |parts| ==> sep !in parts[i]
    decreases |s|
  {
    if |s| == 0 then [""]
    else
      var rest := Split(s[1..], sep);
      if s[0] == sep then [""] + rest
      else [[s[0]] + rest[0]] + rest[1..]
  }

  /** Joining the pieces of a split gives back the original string. */
  lemma {:induction false} JoinSplit(s: string, sep: char)
    ensures Join(Split(s, sep), sep) == s
    decreases |s|
  {
    if |s| > 0 {
      var rest := Split(s[1..], sep);
      JoinSplit(s[1..], sep);
      if s[0] == sep {
        assert ([""] + rest)[1..] == rest;
      } else {
        var parts := [[s[0]] + rest[0]] + rest[1..];
        if |rest| > 1 {
          assert parts[1..] == rest[1..];
          assert Join(rest, sep) == rest[0] + [sep] + Join(rest[1..], sep);
          assert Join(parts, sep) == [s[0]] + rest[0] + [sep] + Join(rest[1..], sep);
        }
        assert Join(parts, sep) == [s[0]] + Join(rest, sep);
        assert [s[0]] + s[1..] == s;
      }
    }
  }

  /** A separator-free string is one piece. */
  lemma {:induction false} SplitSingle(p: string, sep: char)
    requires sep !in p
    ensures Split(p, sep) == [p]
    decreases |p|
  {
    if |p| > 0 {
      assert sep !in p[1..] by {
        forall c | c in p[1..] ensures c != sep {
          var k :| 0 <= k < |p[1..]| && p[1..][k] == c;
          assert p[k + 1] == c;
        }
      }
      SplitSingle(p[1..], sep);
      assert [p[0]] + p[1..] == p;
    }
  }

  /** A separator-free prefix followed by a separator is the first piece. */
  lemma {:induction false} SplitFirstPiece(p: string, sep: char, t: string)
    requires sep !in p
    ensures Split(p + [sep] + t, sep) == [p] + Split(t, sep)
    decreases |p|
  {
    var s := p + [sep] + t;
    if |p| == 0 {
      assert s[0] == sep;
      assert s[1..] == t;
    } else {
      assert sep !in p[1..] by {
        forall c | c in p[1..] ensures c != sep {
          var k :| 0 <= k < |p[1..]| && p[1..][k] == c;
          assert p[k + 1] == c;
        }
      }
      assert s[1..] == p[1..] + [sep] + t;
      SplitFirstPiece(p[1..], sep, t);
      assert s[0] == p[0] && s[0] != sep;
      assert [p[0]] + p[1..] == p;
    }
  }

  /** Splitting a join of separator-free pieces gives back the pieces. */
  lemma {:induction false} SplitJoin(parts: seq<string>, sep: char)
    requires |parts| >= 1
    requires forall i :: 0 <= i < |parts| ==> sep !in parts[i]
    ensures Split(Join(parts, sep), sep) == parts
    decreases |parts|
  {
    if |parts| == 1 {
      SplitSingle(parts[0], sep);
    } else {
      SplitJoin(parts[1..], sep);
      SplitFirstPiece(parts[0], sep, Join(parts[1..], sep));
      assert [parts[0]] + parts[1..] == parts;
    }
  }

  /* ---------------------------------------------------------------------
     Stripping white space
     --------------------------------------------------------------------- */

  /** Python's `str.isspace` on one character: the Unicode characters of
      bidirectional class WS, B or S. */
  predicate IsSpace(c: char) {
    || ('\t' <= c <= '\r')
    || ('\U{1C}' <= c <= '\U{1F}')
    || c == ' '
    || c == '\U{85}'
    || c == '\U{A0}'
    || c == '\U{1680}'
    || ('\U{2000}' <= c <= '\U{200A}')
    || c == '\U{2028}'
    || c == '\U{2029}'
    || c == '\U{202F}'
    || c == '\U{205F}'
    || c == '\U{3000}'
  }

  /** `s.lstrip()`: `s` without its leading white space. */
  function StripStart(s: string): (r: string)
    ensures |r| <= |s| && r == s[|s| - |r|..]
    ensures |r| == 0 || !IsSpace(r[0])
    ensures forall i :: 0 <= i < |s| - |r| ==> IsSpace(s[i])
    decreases |s|
  {
    if |s| > 0 && IsSpace(s[0]) then StripStart(s[1..]) else s
  }

  /** `s.rstrip()`: `s` without its trailing white space. */
  function StripEnd(s: string): (r: string)
    ensures |r| <= |s| && r == s[..|r|]
    ensures |r| == 0 || !IsSpace(r[|r| - 1])
    ensures forall i :: |r| <= i < |s| ==> IsSpace(s[i])
    decreases |s|
  {
    if |s| > 0 && IsSpace(s[|s| - 1]) then StripEnd(s[..|s| - 1]) else s
  }

  /** `s.strip()`: the slice of `s` left once white space is cut from both
      ends. Everything cut off is white space, what is left neither starts
      nor ends with white space, and a string that already neither starts
      nor ends with white space is returned unchanged. */
  function Strip(s: string): (r: string)
    ensures |r| == 0 || (!IsSpace(r[0]) && !IsSpace(r[|r| - 1]))
    ensures var k := |s| - |StripStart(s)|;
      && k + |r| <= |s|
      && r == s[k..k + |r|]
      && (forall i :: 0 <= i < k ==> IsSpace(s[i]))
      && (forall i :: k + |r| <= i < |s| ==> IsSpace(s[i]))
    ensures (|s| == 0 || (!IsSpace(s[0]) && !IsSpace(s[|s| - 1]))) ==> r == s
  {
    StripEnd(StripStart(s))
  }

  /* ---------------------------------------------------------------------
     Decimal digit strings
     --------------------------------------------------------------------- */

  predicate IsDigit(c: char) {
    '0' as int <= c as int <= '9' as int
  }

  /** `s.isdigit()` for ASCII text: non-empty and every character a digit. */
  predicate IsDecimal(s: string) {
    |s| > 0 && forall i :: 0 <= i < |s| ==> IsDigit(s[i])
  }

  /** `int(s)` for a string of digits (leading zeros allowed). The value
      is zero exactly when every digit is '0'. */
  function DecimalValue(s: string): (v: nat)
    requires forall i :: 0 <= i < |s| ==> IsDigit(s[i])
    ensures v == 0 <==> forall i :: 0 <= i < |s| ==> s[i] == '0'
    decreases |s|
  {
    if |s| == 0 then 0
    else
      var init := s[..|s| - 1];
      assert forall i :: 0 <= i < |init| ==> init[i] == s[i];
      assert IsDigit(s[|s| - 1]);
      DecimalValue(init) * 10 + (s[|s| - 1] as int - '0' as int)
  }

  function DigitChar(d: nat): (c: char)
    requires d < 10
    ensures IsDigit(c)
    ensures c as int - '0' as int == d
  {
    ('0' as int + d) as char
  }

  /** `str(n)`: the shortest decimal spelling of `n`; parsing it back
      gives `n`. */
  function DecimalString(n: nat): (r: string)
    ensures IsDecimal(r)
    ensures DecimalValue(r) == n
    ensures r[0] != '0' || r == "0"
    decreases n
  {
    if n < 10 then [DigitChar(n)]
    else
      var p := DecimalString(n / 10);
      var r := p + [DigitChar(n % 10)];
      assert r[..|r| - 1] == p;
      r
  }

  /** A digit string without a superfluous leading zero is the spelling
      of its own value. */
  lemma {:induction false} DecimalStringOfValue(s: string)
    requires IsDecimal(s)
    requires s[0] != '0' || s == "0"
    ensures DecimalString(DecimalValue(s)) == s
    decreases |s|
  {
    if |s| == 1 {
      assert s[..0] == [];
      assert s == [DigitChar(DecimalValue(s))];
    } else {
      var p := s[..|s| - 1];
      assert p[0] == s[0];
      DecimalStringOfValue(p);
      var n := DecimalValue(s);
      assert n / 10 == DecimalValue(p);
      assert n % 10 == s[|s| - 1] as int - '0' as int;
      assert s == p + [s[|s| - 1]];
    }
  }

  /** `int` ignores leading zeros: "007" and "7" have the same value. */
  lemma {:induction false} LeadingZeroIgnored(s: string)
    requires forall i :: 0 <= i < |s| ==> IsDigit(s[i])
    ensures DecimalValue("0" + s) == DecimalValue(s)
    decreases |s|
  {
    if |s| == 0 {
      assert ("0" + s)[..0] == [];
    } else {
      var p := s[..|s| - 1];
      LeadingZeroIgnored(p);
      assert ("0" + s)[..|"0" + s| - 1] == "0" + p;
    }
  }

  /* ---------------------------------------------------------------------
     Suffix test
     --------------------------------------------------------------------- */

  /** `s.endswith(suffix)`. */
  predicate EndsWith(s: string, suffix: string) {
    |suffix| <= |s| && s[|s| - |suffix|..] == suffix
  }
}
