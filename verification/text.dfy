/**
 The small part of Python's `str` behaviour that the application relies on:
 whitespace and alphanumeric classes, `strip`, `split` (on whitespace and on a
 separator), `join`, `replace(c, '')`, `int(...)` of a decimal text, `str(n)` and
 the `{:,}` thousands grouping of an integer.
 */
module Text {
  import opened Wrappers

  /** Python's `str.isspace` on one character: exactly the characters Python
      classifies as whitespace. */
  predicate IsSpace(c: char) {
    || c == ' '
    || ('\t' <= c <= '\r')
    || ('\U{1C}' <= c <= '\U{1F}')
    || c == '\U{85}' || c == '\U{A0}' || c == '\U{1680}'
    || ('\U{2000}' <= c <= '\U{200A}')
    || c == '\U{2028}' || c == '\U{2029}' || c == '\U{202F}' || c == '\U{205F}'
    || c == '\U{3000}'
  }

  predicate IsDigit(c: char) {
    '0' <= c <= '9'
  }

  /** Python's `str.isalnum` on one character, for ASCII letters and digits
      and the Hangul syllable block. */
  predicate IsAlnum(c: char) {
    || ('a' <= c <= 'z')
    || ('A' <= c <= 'Z')
    || IsDigit(c)
    || ('\U{AC00}' <= c <= '\U{D7A3}')
  }

  /** A string with no whitespace at either end. */
  predicate IsTrimmed(s: string) {
    s == [] || (!IsSpace(s[0]) && !IsSpace(s[|s| - 1]))
  }

  /** A non-empty run of non-whitespace characters, as `str.split()` yields. */
  predicate IsWord(w: string) {
    w != [] && forall k | 0 <= k < |w| :: !IsSpace(w[k])
  }

  predicate IsDigits(s: string) {
    s != [] && forall k | 0 <= k < |s| :: IsDigit(s[k])
  }

  // ---------------------------------------------------------------------------
  // strip

  /** `str.lstrip()`: the suffix left after dropping leading whitespace. */
  function TrimStart(s: string): (r: string)
    ensures |r| <= |s| && r == s[|s| - |r|..]
    ensures forall k | 0 <= k < |s| - |r| :: IsSpace(s[k])
    ensures r == [] || !IsSpace(r[0])
  {
    if s != [] && IsSpace(s[0]) then TrimStart(s[1..]) else s
  }

  /** `str.rstrip()`: the prefix left after dropping trailing whitespace. */
  function TrimEnd(s: string): (r: string)
    ensures |r| <= |s| && r == s[..|r|]
    ensures forall k | |r| <= k < |s| :: IsSpace(s[k])
    ensures r == [] || !IsSpace(r[|r| - 1])
  {
    if s != [] && IsSpace(s[|s| - 1]) then TrimEnd(s[..|s| - 1]) else s
  }

  /** `str.strip()`. */
  function Strip(s: string): (r: string)
    ensures IsTrimmed(r)
    ensures forall c | c in r :: c in s
    ensures IsTrimmed(s) ==> r == s
    ensures r == [] <==> forall k | 0 <= k < |s| :: IsSpace(s[k])
  {
    var t := TrimStart(s);
    var r := TrimEnd(t);
    TrimSlice(s, t, r);
    r
  }

  /** `s.strip()` is `s` without its leading and trailing whitespace: a slice
      of `s` with only whitespace before and after it. Being stripped itself,
      it is the slice from the first to the last non-whitespace character. */
  lemma StripIsSlice(s: string)
    ensures exists i, j | 0 <= i <= j <= |s| :: Strip(s) == s[i..j] && AllSpace(s[..i]) && AllSpace(s[j..])
  {
    var i, j := StripBounds(s);
  }

  /** The bounds of the slice `strip()` keeps. */
  lemma StripBounds(s: string) returns (i: nat, j: nat)
    ensures i <= j <= |s| && Strip(s) == s[i..j] && AllSpace(s[..i]) && AllSpace(s[j..])
  {
    var t := TrimStart(s);
    var r := TrimEnd(t);
    TrimSlice(s, t, r);
    i, j := |s| - |t|, |s| - |t| + |r|;
  }

  /** Dropping a whitespace prefix and then a whitespace suffix leaves a
      slice of the input. */
  lemma TrimSlice(s: string, t: string, r: string)
    requires |t| <= |s| && t == s[|s| - |t|..] && AllSpace(s[..|s| - |t|])
    requires |r| <= |t| && r == t[..|r|] && AllSpace(t[|r|..])
    ensures var i := |s| - |t|;
      && r == s[i..i + |r|] && AllSpace(s[..i]) && AllSpace(s[i + |r|..])
    ensures forall c | c in r :: c in s
  {
    var i := |s| - |t|;
    assert s[i + |r|..] == t[|r|..];
    assert forall k | 0 <= k < |r| :: r[k] == s[i + k];
  }

  predicate AllSpace(s: string) {
    forall k | 0 <= k < |s| :: IsSpace(s[k])
  }

  // ---------------------------------------------------------------------------
  // character filtering

  /** `''.join(e for e in s if e.isalnum() or e.isspace())`. */
  function KeepAlnumOrSpace(s: string): (r: string)
    ensures forall c :: c in r <==> c in s && (IsAlnum(c) || IsSpace(c))
    ensures |r| <= |s|
  {
    if s == [] then []
    else (if IsAlnum(s[0]) || IsSpace(s[0]) then [s[0]] else []) + KeepAlnumOrSpace(s[1..])
  }

  /** The filter works character by character: it keeps a character exactly
      when it is a letter, a digit or whitespace, and it keeps their order. */
  lemma KeepAlnumOrSpaceOne(c: char)
    ensures KeepAlnumOrSpace([c]) == if IsAlnum(c) || IsSpace(c) then [c] else []
  {
    assert [c][1..] == [];
  }

  lemma {:induction false} KeepAlnumOrSpaceConcat(a: string, b: string)
    ensures KeepAlnumOrSpace(a + b) == KeepAlnumOrSpace(a) + KeepAlnumOrSpace(b)
    decreases |a|
  {
    if a == [] {
      assert a + b == b;
    } else {
      assert (a + b)[0] == a[0];
      assert (a + b)[1..] == a[1..] + b;
      KeepAlnumOrSpaceConcat(a[1..], b);
    }
  }

  /** Filtering text that has only letters, digits and whitespace changes nothing. */
  lemma {:induction false} KeepAlnumOrSpaceOfClean(s: string)
    requires forall k | 0 <= k < |s| :: IsAlnum(s[k]) || IsSpace(s[k])
    ensures KeepAlnumOrSpace(s) == s
    decreases |s|
  {
    if s != [] {
      KeepAlnumOrSpaceOfClean(s[1..]);
      assert [s[0]] + s[1..] == s;
    }
  }

  /** `s.replace(c, '')`. */
  function RemoveChar(s: string, c: char): (r: string)
    ensures c !in r
    ensures forall d | d != c :: d in r <==> d in s
    ensures c !in s ==> r == s
  {
    if s == [] then []
    else (if s[0] == c then [] else [s[0]]) + RemoveChar(s[1..], c)
  }

  lemma {:induction false} RemoveCharConcat(a: string, b: string, c: char)
    ensures RemoveChar(a + b, c) == RemoveChar(a, c) + RemoveChar(b, c)
    decreases |a|
  {
    if a == [] {
      assert a + b == b;
    } else {
      assert (a + b)[0] == a[0];
      assert (a + b)[1..] == a[1..] + b;
      RemoveCharConcat(a[1..], b, c);
    }
  }

  // ---------------------------------------------------------------------------
  // join and split

  /** `sep.join(ws)`. */
  function Join(ws: seq<string>, sep: string): string
    decreases |ws|
  {
    if ws == [] then []
    else if |ws| == 1 then ws[0]
    else ws[0] + sep + Join(ws[1..], sep)
  }

  lemma {:induction false} JoinAppend(ws: seq<string>, w: string, sep: string)
    requires ws != []
    ensures Join(ws + [w], sep) == Join(ws, sep) + sep + w
    decreases |ws|
  {
    if |ws| == 1 {
      assert (ws + [w])[1..] == [w];
    } else {
      assert (ws + [w])[1..] == ws[1..] + [w];
      JoinAppend(ws[1..], w, sep);
    }
  }

  /** Number of occurrences of `c` in `s`. */
  function Count(s: string, c: char): nat
  {
    if s == [] then 0 else (if s[0] == c then 1 else 0) + Count(s[1..], c)
  }

  lemma {:induction false} CountConcat(a: string, b: string, c: char)
    ensures Count(a + b, c) == Count(a, c) + Count(b, c)
    decreases |a|
  {
    if a == [] {
      assert a + b == b;
    } else {
      assert (a + b)[1..] == a[1..] + b;
      CountConcat(a[1..], b, c);
    }
  }

  lemma {:induction false} CountAbsent(s: string, c: char)
    requires c !in s
    ensures Count(s, c) == 0
    decreases |s|
  {
    if s != [] {
      assert c !in s[1..] by {
        forall k | 0 <= k < |s[1..]| ensures s[1..][k] != c {
          assert s[1..][k] == s[k + 1];
        }
      }
      CountAbsent(s[1..], c);
    }
  }

  /** Position of the first `c` in `s`. */
  function IndexOf(s: string, c: char): (i: nat)
    requires c in s
    ensures i < |s| && s[i] == c && c !in s[..i]
  {
    if s[0] == c then 0 else 1 + IndexOf(s[1..], c)
  }

  /** `s.split(c)`: the pieces between occurrences of `c`, empty pieces kept. */
  function SplitOn(s: string, c: char): (parts: seq<string>)
    ensures |parts| == Count(s, c) + 1
    ensures forall k | 0 <= k < |parts| :: c !in parts[k]
    ensures Join(parts, [c]) == s
    decreases |s|
  {
    if c !in s then
      CountAbsent(s, c);
      [s]
    else
      var i := IndexOf(s, c);
      var rest := SplitOn(s[i + 1..], c);
      assert s == s[..i] + [c] + s[i + 1..];
      CountConcat(s[..i] + [c], s[i + 1..], c);
      CountConcat(s[..i], [c], c);
      CountAbsent(s[..i], c);
      assert ([s[..i]] + rest)[1..] == rest;
      [s[..i]] + rest
  }

  /** Length of the leading run of non-whitespace characters. */
  function WordLen(s: string): (n: nat)
    ensures n <= |s|
    ensures forall k | 0 <= k < n :: !IsSpace(s[k])
    ensures n == |s| || IsSpace(s[n])
  {
    if s == [] || IsSpace(s[0]) then 0 else 1 + WordLen(s[1..])
  }

  /** `s.split()`: the maximal runs of non-whitespace characters. */
  function Words(s: string): (ws: seq<string>)
    ensures forall k | 0 <= k < |ws| :: IsWord(ws[k])
    decreases |s|
  {
    if s == [] then []
    else if IsSpace(s[0]) then Words(s[1..])
    else
      var n := WordLen(s);
      [s[..n]] + Words(s[n..])
  }

  lemma {:induction false} WordLenOfWord(w: string, rest: string)
    requires IsWord(w)
    requires rest == [] || IsSpace(rest[0])
    ensures WordLen(w + rest) == |w|
    decreases |w|
  {
    if |w| > 1 {
      assert (w + rest)[1..] == w[1..] + rest;
      WordLenOfWord(w[1..], rest);
    } else {
      assert (w + rest)[1..] == rest;
    }
  }

  /** Splitting a single-space join of words gives the words back. */
  lemma {:induction false} WordsOfJoin(ws: seq<string>)
    requires forall k | 0 <= k < |ws| :: IsWord(ws[k])
    ensures Words(Join(ws, " ")) == ws
    decreases |ws|
  {
    if ws == [] {
    } else if |ws| == 1 {
      var w := ws[0];
      WordLenOfWord(w, []);
      assert w + [] == w;
      assert w[|w|..] == [];
    } else {
      var w := ws[0];
      var tail := Join(ws[1..], " ");
      var s := w + " " + tail;
      assert s == w + (" " + tail);
      WordLenOfWord(w, " " + tail);
      assert s[..|w|] == w;
      assert s[|w|..] == " " + tail;
      assert (" " + tail)[1..] == tail;
      WordsOfJoin(ws[1..]);
      assert [w] + ws[1..] == ws;
    }
  }

  /** `split()` ignores surrounding whitespace: `s.strip().split() == s.split()`. */
  lemma WordsOfStrip(s: string)
    ensures Words(Strip(s)) == Words(s)
  {
    StripIsSlice(s);
    var i, j :| 0 <= i <= j <= |s| && Strip(s) == s[i..j] && AllSpace(s[..i]) && AllSpace(s[j..]);
    WordsOfSlice(s, i, j);
  }

  /** Whitespace around a slice does not change its words. */
  lemma WordsOfSlice(s: string, i: nat, j: nat)
    requires i <= j <= |s| && AllSpace(s[..i]) && AllSpace(s[j..])
    ensures Words(s[i..j]) == Words(s)
  {
    var r := s[i..j];
    assert s == s[..i] + (r + s[j..]);
    WordsSpacePrefix(s[..i], r + s[j..]);
    WordsSpaceSuffix(r, s[j..]);
  }

  lemma {:induction false} WordsSpacePrefix(p: string, t: string)
    requires AllSpace(p)
    ensures Words(p + t) == Words(t)
    decreases |p|
  {
    if p != [] {
      assert (p + t)[0] == p[0];
      assert (p + t)[1..] == p[1..] + t;
      WordsSpacePrefix(p[1..], t);
    } else {
      assert p + t == t;
    }
  }

  lemma {:induction false} WordLenConcat(a: string, b: string)
    requires WordLen(a) < |a| || b == [] || IsSpace(b[0])
    ensures WordLen(a + b) == WordLen(a)
    decreases |a|
  {
    if a == [] {
      assert a + b == b;
    } else if !IsSpace(a[0]) {
      assert (a + b)[0] == a[0];
      assert (a + b)[1..] == a[1..] + b;
      WordLenConcat(a[1..], b);
    }
  }

  lemma {:induction false} WordsSpaceSuffix(a: string, b: string)
    requires AllSpace(b)
    ensures Words(a + b) == Words(a)
    decreases |a|
  {
    if a == [] {
      assert a + b == b;
      WordsOfSpaces(b);
    } else if IsSpace(a[0]) {
      assert (a + b)[0] == a[0];
      assert (a + b)[1..] == a[1..] + b;
      WordsSpaceSuffix(a[1..], b);
    } else {
      assert (a + b)[0] == a[0];
      WordLenConcat(a, b);
      var n := WordLen(a);
      assert (a + b)[..n] == a[..n];
      assert (a + b)[n..] == a[n..] + b;
      WordsSpaceSuffix(a[n..], b);
    }
  }

  lemma {:induction false} WordsOfSpaces(b: string)
    requires AllSpace(b)
    ensures Words(b) == []
    decreases |b|
  {
    if b != [] {
      WordsOfSpaces(b[1..]);
    }
  }

  /** A single-space join of words has no whitespace at either end. */
  lemma {:induction false} JoinOfWordsTrimmed(ws: seq<string>)
    requires forall k | 0 <= k < |ws| :: IsWord(ws[k])
    ensures IsTrimmed(Join(ws, " "))
    ensures ws != [] ==> Join(ws, " ") != []
    decreases |ws|
  {
    if |ws| > 1 {
      JoinOfWordsTrimmed(ws[1..]);
      var j := Join(ws, " ");
      assert j[0] == ws[0][0];
      assert j[|j| - 1] == Join(ws[1..], " ")[|Join(ws[1..], " ")| - 1];
    }
  }

  // ---------------------------------------------------------------------------
  // integers as text

  function DigitChar(d: nat): (c: char)
    requires d < 10
    ensures IsDigit(c) && c as int - '0' as int == d
  {
    ('0' as int + d) as char
  }

  /** `str(n)` for a non-negative integer. */
  function NatToString(n: nat): (s: string)
    ensures IsDigits(s)
    decreases n
  {
    if n < 10 then [DigitChar(n)] else NatToString(n / 10) + [DigitChar(n % 10)]
  }

  /** `str(n)` for any integer. */
  function IntToString(n: int): string
  {
    if n < 0 then "-" + NatToString(-n) else NatToString(n)
  }

  /** The value of a run of decimal digits. */
  function DigitsValue(s: string): nat
    requires forall k | 0 <= k < |s| :: IsDigit(s[k])
  {
    if s == [] then 0
    else
      var last := s[|s| - 1];
      assert IsDigit(last);
      DigitsValue(s[..|s| - 1]) * 10 + (last as int - '0' as int)
  }

  /** Python's `int(s)` on a text that has already been stripped: an optional
      sign followed by one or more decimal digits; anything else raises
      `ValueError`, modelled as `None`. */
  function ParseInt(s: string): (r: Option<int>)
    ensures r.Some? <==> IsDigits(s) || (|s| > 0 && (s[0] == '-' || s[0] == '+') && IsDigits(s[1..]))
    ensures r.Some? && IsDigits(s) ==> r.value >= 0
  {
    if |s| > 0 && (s[0] == '-' || s[0] == '+') then
      if IsDigits(s[1..]) then
        var v: int := DigitsValue(s[1..]);
        Some(if s[0] == '-' then -v else v)
      else None
    else if IsDigits(s) then Some(DigitsValue(s))
    else None
  }

  lemma {:induction false} DigitsValueOfNatToString(n: nat)
    ensures DigitsValue(NatToString(n)) == n
    decreases n
  {
    if n >= 10 {
      var s := NatToString(n);
      DigitsValueOfNatToString(n / 10);
      assert s[..|s| - 1] == NatToString(n / 10);
    }
  }

  /** `int(str(n)) == n`. */
  lemma ParseIntOfIntToString(n: int)
    ensures ParseInt(IntToString(n)) == Some(n)
  {
    if n < 0 {
      var d := NatToString(-n);
      assert IntToString(n) == "-" + d;
      DigitsValueOfNatToString(-n);
      ParseSigned(d);
    } else {
      var d := NatToString(n);
      assert IntToString(n) == d;
      DigitsValueOfNatToString(n);
      ParseUnsigned(d);
    }
  }

  lemma ParseUnsigned(d: string)
    requires IsDigits(d)
    ensures ParseInt(d) == Some(DigitsValue(d) as int)
  {
    assert IsDigit(d[0]);
  }

  lemma ParseSigned(d: string)
    requires IsDigits(d)
    ensures ParseInt("-" + d) == Some(0 - DigitsValue(d) as int)
  {
    var s := "-" + d;
    assert s[0] == '-' && s[1..] == d;
  }

  // ---------------------------------------------------------------------------
  // thousands grouping

  /** Inserts a comma before every group of three digits counted from the right. */
  function GroupThousands(d: string): (r: string)
    ensures |r| >= |d|
    decreases |d|
  {
    if |d| <= 3 then d else GroupThousands(d[..|d| - 3]) + "," + d[|d| - 3..]
  }

  /** `f"{n:,.0f}"` for an integer amount. */
  function FormatThousands(n: int): string
  {
    if n < 0 then "-" + GroupThousands(NatToString(-n)) else GroupThousands(NatToString(n))
  }

  lemma RemoveCommaOfThree(g: string, lo: string)
    requires ',' !in lo
    ensures RemoveChar(g + "," + lo, ',') == RemoveChar(g, ',') + lo
  {
    RemoveCharConcat(g + ",", lo, ',');
    RemoveCharConcat(g, ",", ',');
  }

  lemma {:induction false} RemoveCommasOfGroup(d: string)
    requires ',' !in d
    ensures RemoveChar(GroupThousands(d), ',') == d
    decreases |d|
  {
    if |d| > 3 {
      var hi, lo := d[..|d| - 3], d[|d| - 3..];
      assert d == hi + lo;
      assert ',' !in hi && ',' !in lo;
      RemoveCommasOfGroup(hi);
      RemoveCommaOfThree(GroupThousands(hi), lo);
    }
  }

  lemma DigitsHaveNoComma(s: string)
    requires IsDigits(s)
    ensures ',' !in s
  {
  }

  /** Removing the grouping commas from `f"{n:,}"` gives back `str(n)`. */
  lemma UngroupFormatThousands(n: int)
    ensures RemoveChar(FormatThousands(n), ',') == IntToString(n)
  {
    var d := NatToString(if n < 0 then -n else n);
    DigitsHaveNoComma(d);
    RemoveCommasOfGroup(d);
    if n < 0 {
      RemoveCharConcat("-", GroupThousands(d), ',');
    }
  }
}
