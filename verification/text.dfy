/** The few Python string operations the log parser relies on:
    `startswith`, `split` with and without a split limit, and `int()` on a
    decimal string, together with the renderings that invert them. */
module Text {
  import opened Results

  predicate StartsWith(s: string, prefix: string) {
    |prefix| <= |s| && s[..|prefix|] == prefix
  }

  /** Python's `s.split(sep, maxsplit)` for a one-character separator:
      reading left to right, a separator is a cut while cuts remain, and is
      kept as text once they are used up. */
  function SplitN(s: string, sep: char, maxsplit: nat): (parts: seq<string>)
    ensures 1 <= |parts| <= maxsplit + 1
    decreases |s|
  {
    if |s| == 0 then [""]
    else if s[0] == sep && maxsplit > 0 then [""] + SplitN(s[1..], sep, maxsplit - 1)
    else
      var rest := SplitN(s[1..], sep, maxsplit);
      [[s[0]] + rest[0]] + rest[1..]
  }

  /** Python's `s.split(sep)`: every occurrence of `sep` is a cut. A string
      holds at most `|s|` separators, so `|s|` cuts never run out. */
  function Split(s: string, sep: char): (parts: seq<string>)
    ensures |parts| >= 1
    ensures forall k :: 0 <= k < |parts| ==> sep !in parts[k]
  {
    SplitNCuts(s, sep, |s|);
    SplitNExhausts(s, sep, |s|);
    SplitN(s, sep, |s|)
  }

  /** Python's `sep.join(parts)`. */
  function Join(parts: seq<string>, sep: char): string
    requires |parts| >= 1
    decreases |parts|
  {
    if |parts| == 1 then parts[0] else parts[0] + [sep] + Join(parts[1..], sep)
  }

  /** No part but possibly the last holds the separator. */
  predicate CutsClean(parts: seq<string>, sep: char) {
    forall k :: 0 <= k < |parts| - 1 ==> sep !in parts[k]
  }

  /** With no cuts allowed the string comes back whole. */
  lemma {:induction false} SplitNNoCuts(s: string, sep: char)
    ensures SplitN(s, sep, 0) == [s]
    decreases |s|
  {
    if |s| > 0 {
      SplitNNoCuts(s[1..], sep);
      assert [s[0]] + s[1..] == s;
    }
  }

  /** Every part but the last ends at a cut, so holds no separator. */
  lemma {:induction false} SplitNCuts(s: string, sep: char, maxsplit: nat)
    ensures CutsClean(SplitN(s, sep, maxsplit), sep)
    decreases |s|
  {
    if |s| > 0 {
      if s[0] == sep && maxsplit > 0 {
        var rest := SplitN(s[1..], sep, maxsplit - 1);
        SplitNCuts(s[1..], sep, maxsplit - 1);
        var parts := [""] + rest;
        forall k | 0 <= k < |parts| - 1
          ensures sep !in parts[k]
        {
          if k > 0 {
            assert parts[k] == rest[k - 1];
          }
        }
      } else {
        var rest := SplitN(s[1..], sep, maxsplit);
        SplitNCuts(s[1..], sep, maxsplit);
        if s[0] == sep {
          SplitNNoCuts(s[1..], sep);
        }
        var parts := [[s[0]] + rest[0]] + rest[1..];
        forall k | 0 <= k < |parts| - 1
          ensures sep !in parts[k]
        {
          if k > 0 {
            assert parts[k] == rest[k];
          }
        }
      }
    }
  }

  /** With at least as many cuts allowed as there are characters, the last
      part holds no separator either. */
  lemma {:induction false} SplitNExhausts(s: string, sep: char, maxsplit: nat)
    requires maxsplit >= |s|
    ensures var parts := SplitN(s, sep, maxsplit); sep !in parts[|parts| - 1]
    decreases |s|
  {
    if |s| > 0 {
      if s[0] == sep {
        SplitNExhausts(s[1..], sep, maxsplit - 1);
      } else {
        SplitNExhausts(s[1..], sep, maxsplit);
      }
    }
  }

  lemma JoinCons(head: string, rest: seq<string>, sep: char)
    requires |rest| >= 1
    ensures Join([head] + rest, sep) == head + [sep] + Join(rest, sep)
  {
    assert ([head] + rest)[1..] == rest;
  }

  lemma JoinPrepend(x: string, parts: seq<string>, sep: char)
    requires |parts| >= 1
    ensures Join([x + parts[0]] + parts[1..], sep) == x + Join(parts, sep)
  {
    var q := [x + parts[0]] + parts[1..];
    if |parts| > 1 {
      assert q[1..] == parts[1..];
    }
  }

  /** Splitting loses nothing: joining the parts back gives the input. */
  lemma {:induction false} JoinSplitN(s: string, sep: char, maxsplit: nat)
    ensures Join(SplitN(s, sep, maxsplit), sep) == s
    decreases |s|
  {
    if |s| > 0 {
      if s[0] == sep && maxsplit > 0 {
        JoinSplitN(s[1..], sep, maxsplit - 1);
        JoinCons("", SplitN(s[1..], sep, maxsplit - 1), sep);
      } else {
        JoinSplitN(s[1..], sep, maxsplit);
        JoinPrepend([s[0]], SplitN(s[1..], sep, maxsplit), sep);
      }
      assert s == [s[0]] + s[1..];
    }
  }

  /** A separator-free prefix joins the first part of whatever follows. */
  lemma {:induction false} SplitNPrefix(x: string, y: string, sep: char, maxsplit: nat)
    requires sep !in x
    ensures var rest := SplitN(y, sep, maxsplit);
      SplitN(x + y, sep, maxsplit) == [x + rest[0]] + rest[1..]
    decreases |x|
  {
    if |x| > 0 {
      var xy := x + y;
      assert xy[0] == x[0] && xy[1..] == x[1..] + y;
      SplitNPrefix(x[1..], y, sep, maxsplit);
      var rest := SplitN(y, sep, maxsplit);
      assert [x[0]] + (x[1..] + rest[0]) == x + rest[0];
    } else {
      assert x + y == y;
      var rest := SplitN(y, sep, maxsplit);
      assert x + rest[0] == rest[0];
      assert [rest[0]] + rest[1..] == rest;
    }
  }

  /** Joining parts and splitting again gives the parts back, when no cut
      but the last may fall inside a part and exactly as many cuts as
      separators are allowed (or the last part holds no separator). */
  lemma {:induction false} SplitNJoin(parts: seq<string>, sep: char, maxsplit: nat)
    requires |parts| >= 1 && maxsplit >= |parts| - 1
    requires CutsClean(parts, sep)
    requires maxsplit == |parts| - 1 || sep !in parts[|parts| - 1]
    ensures SplitN(Join(parts, sep), sep, maxsplit) == parts
    decreases |parts|
  {
    var p0 := parts[0];
    if |parts| == 1 {
      if maxsplit == 0 {
        SplitNNoCuts(p0, sep);
      } else {
        SplitNPrefix(p0, "", sep, maxsplit);
        assert p0 + "" == p0;
      }
    } else {
      var rest := parts[1..];
      var j := Join(rest, sep);
      assert sep !in p0;
      assert Join(parts, sep) == p0 + ([sep] + j);
      SplitNPrefix(p0, [sep] + j, sep, maxsplit);
      assert ([sep] + j)[0] == sep && ([sep] + j)[1..] == j;
      assert SplitN([sep] + j, sep, maxsplit) == [""] + SplitN(j, sep, maxsplit - 1);
      assert CutsClean(rest, sep) by {
        forall k | 0 <= k < |rest| - 1
          ensures sep !in rest[k]
        {
          assert rest[k] == parts[k + 1];
        }
      }
      SplitNJoin(rest, sep, maxsplit - 1);
      assert p0 + "" == p0;
      assert parts == [p0] + rest;
    }
  }

  /** Every part of a join adds at least a separator. */
  lemma {:induction false} JoinLength(parts: seq<string>, sep: char)
    requires |parts| >= 1
    ensures |Join(parts, sep)| >= |parts| - 1
    decreases |parts|
  {
    if |parts| > 1 {
      JoinLength(parts[1..], sep);
    }
  }

  /** The inverse of `Split`: separator-free parts survive a join. */
  lemma SplitJoin(parts: seq<string>, sep: char)
    requires |parts| >= 1
    requires forall k :: 0 <= k < |parts| ==> sep !in parts[k]
    ensures Split(Join(parts, sep), sep) == parts
  {
    JoinLength(parts, sep);
    SplitNJoin(parts, sep, |Join(parts, sep)|);
  }

  // ---------------------------------------------------------------------
  // Python 2 `int(s)` in base 10

  /** C's `isspace` in the default locale. */
  predicate IsSpace(c: char) {
    c == ' ' || c == '\t' || c == '\n' || c == '\r' || c == '\U{000B}' || c == '\U{000C}'
  }

  predicate IsDigit(c: char) {
    '0' <= c <= '9'
  }

  predicate AllDigits(s: string) {
    forall k :: 0 <= k < |s| ==> IsDigit(s[k])
  }

  function TrimLeft(s: string): string
    decreases |s|
  {
    if |s| > 0 && IsSpace(s[0]) then TrimLeft(s[1..]) else s
  }

  function TrimRight(s: string): string
    decreases |s|
  {
    if |s| > 0 && IsSpace(s[|s| - 1]) then TrimRight(s[..|s| - 1]) else s
  }

  function DigitValue(c: char): nat
    requires IsDigit(c)
  {
    c as int - '0' as int
  }

  function DigitChar(d: nat): char
    requires d < 10
  {
    ('0' as int + d) as char
  }

  /** The number a string of decimal digits denotes, most significant first. */
  function DigitsValue(ds: string): nat
    requires AllDigits(ds)
    decreases |ds|
  {
    if |ds| == 0 then 0 else 10 * DigitsValue(ds[..|ds| - 1]) + DigitValue(ds[|ds| - 1])
  }

  /** Python 2's `int(s)`: optional surrounding whitespace, an optional sign
      (which CPython 2 lets whitespace follow), then one or more ASCII
      digits. Anything else raises ValueError, modelled as `None`. */
  function ParseInt(s: string): Option<int> {
    ParseSigned(TrimRight(TrimLeft(s)))
  }

  function ParseSigned(t: string): Option<int> {
    if |t| > 0 && (t[0] == '+' || t[0] == '-') then
      match ParseDigits(TrimLeft(t[1..]))
      case Some(v) => Some(if t[0] == '-' then -v else v)
      case None => None
    else ParseDigits(t)
  }

  function ParseDigits(ds: string): Option<int> {
    if |ds| > 0 && AllDigits(ds) then Some(DigitsValue(ds)) else None
  }

  /** Decimal rendering of a natural number, as git prints its counts. */
  function ShowNat(n: nat): (s: string)
    ensures |s| >= 1 && AllDigits(s)
    decreases n
  {
    if n < 10 then [DigitChar(n)] else ShowNat(n / 10) + [DigitChar(n % 10)]
  }

  lemma {:induction false} DigitsValueShowNat(n: nat)
    ensures DigitsValue(ShowNat(n)) == n
    decreases n
  {
    if n >= 10 {
      var s := ShowNat(n);
      assert s[..|s| - 1] == ShowNat(n / 10);
      DigitsValueShowNat(n / 10);
    }
  }

  lemma TrimLeftStops(s: string)
    requires |s| > 0 && !IsSpace(s[0])
    ensures TrimLeft(s) == s
  {
  }

  lemma TrimRightStops(s: string)
    requires |s| > 0 && !IsSpace(s[|s| - 1])
    ensures TrimRight(s) == s
  {
  }

  lemma DigitIsNotSpace(c: char)
    requires IsDigit(c)
    ensures !IsSpace(c) && c != '+' && c != '-'
  {
  }

  /** `int()` of a plain digit string is its decimal value. */
  lemma ParseIntDigits(ds: string)
    requires |ds| > 0 && AllDigits(ds)
    ensures ParseInt(ds) == Some(DigitsValue(ds) as int)
  {
    DigitIsNotSpace(ds[0]);
    DigitIsNotSpace(ds[|ds| - 1]);
    TrimLeftStops(ds);
    TrimRightStops(ds);
  }

  /** `int()` of a minus sign and a digit string is the negated value. */
  lemma ParseIntNegative(ds: string)
    requires |ds| > 0 && AllDigits(ds)
    ensures ParseInt("-" + ds) == Some(-(DigitsValue(ds) as int))
  {
    var m := "-" + ds;
    assert m[0] == '-' && m[1..] == ds && m[|m| - 1] == ds[|ds| - 1];
    DigitIsNotSpace(ds[0]);
    DigitIsNotSpace(ds[|ds| - 1]);
    TrimLeftStops(m);
    TrimRightStops(m);
    TrimLeftStops(ds);
  }

  /** `int()` reads back what `ShowNat` prints, with or without a minus sign. */
  lemma ParseIntShowNat(n: nat)
    ensures ParseInt(ShowNat(n)) == Some(n)
    ensures ParseInt("-" + ShowNat(n)) == Some(-(n as int))
  {
    DigitsValueShowNat(n);
    ParseIntDigits(ShowNat(n));
    ParseIntNegative(ShowNat(n));
  }

  /** A lone `-`, git's marker for a binary file, is not a number, and
      neither is the empty string. */
  lemma ParseIntRejectsDash()
    ensures ParseInt("-") == None
    ensures ParseInt("") == None
  {
    TrimLeftStops("-");
    TrimRightStops("-");
    assert "-"[1..] == "";
  }
}
