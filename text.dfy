/** The two string operations the tile uses to read its children's names:
    String.Split(char) and int.TryParse(string) of .NET. */
module Text {
  import opened Wrappers
  import opened Engine

  /** String.Split(sep): every piece between separators, empty ones included,
      so a string with k separators yields k + 1 pieces. */
  function Split(s: string, sep: char): (parts: seq<string>)
    ensures |parts| >= 1
    ensures forall i :: 0 <= i < |parts| ==> sep !in parts[i]
    decreases |s|
  {
    if |s| == 0 then [""]
    else
      var rest := Split(s[1..], sep);
      if s[0] == sep then [""] + rest
      else [[s[0]] + rest[0]] + rest[1..]
  }

  /** String.Join(sep, parts), the inverse of Split. */
  function Join(parts: seq<string>, sep: char): string
  {
    if |parts| == 0 then ""
    else if |parts| == 1 then parts[0]
    else parts[0] + [sep] + Join(parts[1..], sep)
  }

  /** Splitting loses nothing: joining the pieces with the separator gives
      back the original string. */
  lemma {:induction false} JoinSplit(s: string, sep: char)
    ensures Join(Split(s, sep), sep) == s
    decreases |s|
  {
    if |s| > 0 {
      var rest := Split(s[1..], sep);
      JoinSplit(s[1..], sep);
      if s[0] == sep {
        assert Split(s, sep) == [""] + rest;
        assert ([""] + rest)[1..] == rest;
      } else {
        var parts := Split(s, sep);
        assert parts == [[s[0]] + rest[0]] + rest[1..];
        if |rest| == 1 {
          assert Join(parts, sep) == [s[0]] + rest[0];
        } else {
          assert parts[1..] == rest[1..];
          assert Join(parts, sep) == [s[0]] + rest[0] + [sep] + Join(rest[1..], sep);
        }
      }
    }
  }

  /** A string without the separator is a single piece. */
  lemma {:induction false} SplitWithoutSeparator(a: string, sep: char)
    requires sep !in a
    ensures Split(a, sep) == [a]
    decreases |a|
  {
    if |a| > 0 {
      assert sep !in a[1..];
      SplitWithoutSeparator(a[1..], sep);
      assert [a[0]] + a[1..] == a;
    }
  }

  /** A separator-free prefix followed by the separator becomes the first
      piece, and the rest is split on its own. */
  lemma {:induction false} SplitAfterPiece(a: string, sep: char, rest: string)
    requires sep !in a
    ensures Split(a + [sep] + rest, sep) == [a] + Split(rest, sep)
    decreases |a|
  {
    var s := a + [sep] + rest;
    if |a| == 0 {
      assert s == [sep] + rest;
      assert s[1..] == rest;
    } else {
      assert s[1..] == a[1..] + [sep] + rest;
      assert sep !in a[1..];
      SplitAfterPiece(a[1..], sep, rest);
      assert [a[0]] + a[1..] == a;
    }
  }

  /** The characters .NET skips around a number (U+0009 to U+000D and space). */
  predicate IsWhite(c: char)
  {
    c == ' ' || '\t' <= c <= '\r'
  }

  predicate IsDigit(c: char)
  {
    '0' <= c <= '9'
  }

  predicate AllDigits(s: string)
  {
    forall i :: 0 <= i < |s| ==> IsDigit(s[i])
  }

  function TrimStart(s: string): (t: string)
    ensures |t| <= |s|
  {
    if |s| > 0 && IsWhite(s[0]) then TrimStart(s[1..]) else s
  }

  function TrimEnd(s: string): (t: string)
    ensures |t| <= |s|
  {
    if |s| > 0 && IsWhite(s[|s| - 1]) then TrimEnd(s[..|s| - 1]) else s
  }

  /** Drops the NUL characters at the end of s, which .NET's parser accepts
      after a number and its trailing white space. */
  function TrimNul(s: string): (t: string)
    ensures |t| <= |s|
  {
    if |s| > 0 && s[|s| - 1] == '\0' then TrimNul(s[..|s| - 1]) else s
  }

  /** The value of a string of decimal digits, most significant first. */
  function DigitsValue(s: string): (n: nat)
    requires AllDigits(s)
  {
    if |s| == 0 then 0
    else DigitsValue(s[..|s| - 1]) * 10 + (s[|s| - 1] as int - '0' as int)
  }

  /** int.TryParse(s, out v) with NumberStyles.Integer and the invariant
      culture: optional white space around an optional '+' or '-' sign
      followed by at least one decimal digit, then optional NUL characters;
      a value outside the range of int fails. */
  function TryParseInt(s: string): (r: Option<int>)
    ensures r.Some? ==> MinInt32 <= r.value <= MaxInt32
  {
    var t := TrimEnd(TrimNul(TrimStart(s)));
    if |t| == 0 then None
    else
      var negative := t[0] == '-';
      var digits := if t[0] == '-' || t[0] == '+' then t[1..] else t;
      if |digits| == 0 || !AllDigits(digits) then None
      else
        var v: int := if negative then 0 - DigitsValue(digits) as int else DigitsValue(digits);
        if MinInt32 <= v <= MaxInt32 then Some(v) else None
  }

  /** Int32.ToString() for a non-negative value: decimal digits without
      leading zeros. */
  function NatToString(n: nat): (s: string)
    ensures |s| >= 1 && AllDigits(s)
  {
    if n < 10 then [('0' as int + n) as char]
    else NatToString(n / 10) + [('0' as int + n % 10) as char]
  }

  /** Int32.ToString(): a '-' in front of the digits of a negative value. */
  function IntToString(n: int): (s: string)
  {
    if n < 0 then "-" + NatToString(-n) else NatToString(n)
  }

  lemma {:induction false} DigitsOfNat(n: nat)
    ensures DigitsValue(NatToString(n)) == n
  {
    var s := NatToString(n);
    if n >= 10 {
      DigitsOfNat(n / 10);
      assert s[..|s| - 1] == NatToString(n / 10);
    }
  }

  lemma TrimWithoutWhite(s: string)
    requires |s| > 0 && !IsWhite(s[0]) && !IsWhite(s[|s| - 1]) && s[|s| - 1] != '\0'
    ensures TrimEnd(TrimNul(TrimStart(s))) == s
  {
  }

  /** Leading white space is skipped the same way whatever follows it, as
      long as something other than white space does. */
  lemma {:induction false} TrimStartAppend(s: string, c: char)
    requires !IsWhite(c)
    ensures TrimStart(s + [c]) == if TrimStart(s) == [] then [c] else TrimStart(s) + [c]
  {
    if |s| > 0 {
      assert (s + [c])[1..] == s[1..] + [c];
      if IsWhite(s[0]) {
        TrimStartAppend(s[1..], c);
      }
    }
  }

  /** A NUL appended to a string does not change what int.TryParse reads. */
  lemma TrailingNul(s: string)
    ensures TryParseInt(s + ['\0']) == TryParseInt(s)
  {
    TrimStartAppend(s, '\0');
    var t := TrimStart(s);
    if t == [] {
      assert TrimNul(['\0']) == TrimNul([]);
    } else {
      assert (t + ['\0'])[..|t|] == t;
    }
  }

  /** Parsing undoes formatting for every int. */
  lemma ParseFormatted(n: int)
    requires MinInt32 <= n <= MaxInt32
    ensures TryParseInt(IntToString(n)) == Some(n)
  {
    if n < 0 {
      ParseNegative(-n);
    } else {
      ParseNonNegative(n);
    }
  }

  lemma ParseNonNegative(m: nat)
    requires m <= MaxInt32
    ensures TryParseInt(NatToString(m)) == Some(m)
  {
    var ds := NatToString(m);
    DigitsOfNat(m);
    assert IsDigit(ds[0]) && IsDigit(ds[|ds| - 1]);
    TrimWithoutWhite(ds);
    assert TrimEnd(TrimNul(TrimStart(ds))) == ds;
  }

  lemma ParseNegative(m: nat)
    requires 0 < m <= -MinInt32
    ensures TryParseInt("-" + NatToString(m)) == Some(0 - m as int)
  {
    var ds := NatToString(m);
    DigitsOfNat(m);
    assert IsDigit(ds[0]) && IsDigit(ds[|ds| - 1]);
    var s := "-" + ds;
    assert s[0] == '-' && s[1..] == ds && s[|s| - 1] == ds[|ds| - 1];
    TrimWithoutWhite(s);
    assert TrimEnd(TrimNul(TrimStart(s))) == s;
  }

  /** The pieces of a formatted "prefix_x_z" name, for a prefix without '_'. */
  lemma SplitCellName(prefix: string, x: nat, z: nat)
    requires '_' !in prefix
    ensures Split(prefix + "_" + NatToString(x) + "_" + NatToString(z), '_')
         == [prefix, NatToString(x), NatToString(z)]
  {
    var sx, sz := NatToString(x), NatToString(z);
    assert '_' !in sx && '_' !in sz by {
      assert forall i :: 0 <= i < |sx| ==> IsDigit(sx[i]);
      assert forall i :: 0 <= i < |sz| ==> IsDigit(sz[i]);
    }
    assert prefix + "_" + sx + "_" + sz == prefix + ['_'] + (sx + ['_'] + sz);
    SplitAfterPiece(prefix, '_', sx + ['_'] + sz);
    SplitAfterPiece(sx, '_', sz);
    SplitWithoutSeparator(sz, '_');
  }
}
