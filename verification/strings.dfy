/** The few Python string built-ins the script relies on: `s.split(c)` with a
    one-character separator, `str(n)` of a non-negative integer and `int(s)`
    of a field that starts with a decimal digit. */
module Strings {
  import opened Results

  predicate IsDigit(c: char) { '0' <= c <= '9' }

  /** Every character is an ASCII decimal digit (the empty string included). */
  predicate AllDigits(s: string) { forall i :: 0 <= i < |s| ==> IsDigit(s[i]) }

  /** The regular-expression class `[0-9]+`. */
  predicate IsDigits(s: string) { |s| > 0 && AllDigits(s) }

  function DigitValue(c: char): (d: nat)
    requires IsDigit(c)
    ensures d < 10
  {
    (c as int) - ('0' as int)
  }

  function DigitChar(d: nat): (c: char)
    requires d < 10
    ensures IsDigit(c) && DigitValue(c) == d
  {
    (('0' as int) + d) as char
  }

  /** The value of a string of decimal digits, most significant first. */
  function DecValue(s: string): nat
    requires AllDigits(s)
  {
    if |s| == 0 then 0 else DecValue(s[..|s| - 1]) * 10 + DigitValue(s[|s| - 1])
  }

  /** Python's `str(n)` for `n >= 0`: decimal digits, no leading zero. */
  function NatToString(n: nat): (s: string)
    ensures IsDigits(s)
    ensures |s| > 1 ==> s[0] != '0'
  {
    if n < 10 then [DigitChar(n)] else NatToString(n / 10) + [DigitChar(n % 10)]
  }

  /** `int(str(n)) == n`. */
  lemma {:induction false} DecValueOfNatToString(n: nat)
    ensures DecValue(NatToString(n)) == n
  {
    if n >= 10 {
      var s := NatToString(n);
      assert s[..|s| - 1] == NatToString(n / 10);
      DecValueOfNatToString(n / 10);
    }
  }

  lemma NatToStringInjective(m: nat, n: nat)
    requires NatToString(m) == NatToString(n)
    ensures m == n
  {
    DecValueOfNatToString(m);
    DecValueOfNatToString(n);
  }

  /** Python's `s.split(sep)`: the pieces between occurrences of `sep`, in
      order; `''.split(sep) == ['']`. */
  function Split(s: string, sep: char): (parts: seq<string>)
    ensures |parts| >= 1
    ensures forall i :: 0 <= i < |parts| ==> sep !in parts[i]
  {
    if |s| == 0 then [""]
    else
      var rest := Split(s[1..], sep);
      if s[0] == sep then [""] + rest
      else [[s[0]] + rest[0]] + rest[1..]
  }

  /** The inverse of `Split`: the pieces glued back with the separator. */
  ghost function Join(parts: seq<string>, sep: char): string
  {
    if |parts| == 0 then ""
    else if |parts| == 1 then parts[0]
    else parts[0] + [sep] + Join(parts[1..], sep)
  }

  lemma {:induction false} JoinSplit(s: string, sep: char)
    ensures Join(Split(s, sep), sep) == s
  {
    if |s| > 0 {
      var rest := Split(s[1..], sep);
      JoinSplit(s[1..], sep);
      if s[0] == sep {
        assert Split(s, sep)[1..] == rest;
      } else if |rest| > 1 {
        assert Split(s, sep)[1..] == rest[1..];
        assert Join(rest, sep) == rest[0] + [sep] + Join(rest[1..], sep);
      }
    }
  }

  /** A string without the separator splits into itself. */
  lemma {:induction false} SplitWithoutSeparator(s: string, sep: char)
    requires sep !in s
    ensures Split(s, sep) == [s]
  {
    if |s| > 0 {
      assert sep !in s[1..];
      SplitWithoutSeparator(s[1..], sep);
      assert [s[0]] + s[1..] == s;
    }
  }

  /** The first occurrence of the separator ends the first piece. */
  lemma {:induction false} SplitAtFirst(a: string, sep: char, b: string)
    requires sep !in a
    ensures Split(a + [sep] + b, sep) == [a] + Split(b, sep)
  {
    var s := a + [sep] + b;
    if |a| == 0 {
      assert s[1..] == b;
    } else {
      assert s[1..] == a[1..] + [sep] + b;
      assert sep !in a[1..];
      SplitAtFirst(a[1..], sep, b);
      assert [a[0]] + a[1..] == a;
    }
  }

  /** The first piece of a split is the text before the first separator. */
  lemma {:induction false} SplitFirstPiece(s: string, sep: char)
    ensures var f := Split(s, sep)[0];
            |f| <= |s| && f == s[..|f|] && (|f| == |s| || s[|f|] == sep)
  {
    if |s| > 0 && s[0] != sep {
      SplitFirstPiece(s[1..], sep);
    }
  }

  /** `s.startswith(p)` */
  predicate StartsWith(s: string, p: string)
  {
    |p| == 0 || (|s| > 0 && s[0] == p[0] && StartsWith(s[1..], p[1..]))
  }

  lemma {:induction false} StartsWithIff(s: string, p: string)
    ensures StartsWith(s, p) <==> |p| <= |s| && s[..|p|] == p
  {
    if |p| > 0 && |s| > 0 {
      StartsWithIff(s[1..], p[1..]);
      if |p| <= |s| && s[..|p|] == p {
        assert s[1..][..|p| - 1] == p[1..];
      }
      if StartsWith(s, p) {
        assert s[..|p|] == [s[0]] + s[1..][..|p| - 1];
        assert p == [p[0]] + p[1..];
      }
    }
  }

  lemma StartsWithConcat(p: string, r: string)
    ensures StartsWith(p + r, p)
  {
    StartsWithIff(p + r, p);
    assert (p + r)[..|p|] == p;
  }

  /** The characters Python 2's `int()` strips from the ends of its argument. */
  predicate IsSpace(c: char) { c == ' ' || '\t' <= c <= '\r' }  // tab, LF, VT, FF, CR

  function TrimTrailingSpace(s: string): (t: string)
    ensures |t| <= |s| && t == s[..|t|]
    ensures forall i :: |t| <= i < |s| ==> IsSpace(s[i])
    ensures |t| > 0 ==> !IsSpace(t[|t| - 1])
  {
    if |s| > 0 && IsSpace(s[|s| - 1]) then TrimTrailingSpace(s[..|s| - 1]) else s
  }

  /** Python's `int(s)` for a string that starts with a digit: surrounding
      whitespace is ignored (only trailing whitespace can occur here) and the
      rest must be decimal digits, otherwise `int` raises `ValueError`. */
  function ParseLeadingDigitInt(s: string): (r: Option<nat>)
    requires |s| > 0 && IsDigit(s[0])
    ensures r.Some? <==> AllDigits(TrimTrailingSpace(s))
  {
    var t := TrimTrailingSpace(s);
    if AllDigits(t) then Some(DecValue(t)) else None
  }

  lemma ParseNatToString(n: nat)
    ensures ParseLeadingDigitInt(NatToString(n)) == Some(n)
  {
    DecValueOfNatToString(n);
  }
}
