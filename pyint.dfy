/** Python's conversions between `int` and `str` in base 10: `int(s)` with its
    grammar of surrounding whitespace, an optional sign and ASCII digits, and
    `str(n)`. */
module PyInt {
  import opened Wrappers
  import opened PyText

  predicate IsDigit(c: char) {
    '0' <= c <= '9'
  }

  predicate AllDigits(s: string) {
    forall k :: 0 <= k < |s| ==> IsDigit(s[k])
  }

  function DigitValue(c: char): (d: nat)
    requires IsDigit(c)
    ensures d < 10
  {
    (c as int) - ('0' as int)
  }

  function DigitChar(d: nat): (c: char)
    requires d < 10
    ensures IsDigit(c) && DigitValue(c) == d
  {
    ('0' as int + d) as char
  }

  /** The value of a string of decimal digits, most significant first. */
  function DigitsValue(s: string): nat
    requires AllDigits(s)
  {
    if s == [] then 0 else DigitsValue(s[..|s| - 1]) * 10 + DigitValue(s[|s| - 1])
  }

  /** The grammar `int()` accepts once the surrounding whitespace is removed:
      an optional `+` or `-` followed by one or more ASCII digits. */
  predicate IsIntLiteral(t: string) {
    if |t| > 0 && (t[0] == '+' || t[0] == '-') then |t| > 1 && AllDigits(t[1..])
    else |t| > 0 && AllDigits(t)
  }

  /** The value of an integer literal: its digits, negated after a `-`. */
  function SignedValue(t: string): int
    requires IsIntLiteral(t)
  {
    if t[0] == '-' then -(DigitsValue(t[1..]) as int)
    else if t[0] == '+' then DigitsValue(t[1..])
    else DigitsValue(t)
  }

  /** The whitespace `int()` skips around a literal. An ASCII character is
      skipped only when it is one of " \t\n\v\f\r"; a non-ASCII one when
      `str.isspace()` holds for it. So `int()` skips what `str.strip()` removes
      except U+001C..U+001F, which `str.strip()` removes and `int()` rejects. */
  predicate IsIntSpace(c: char) {
    IsSpace(c) && !('\U{1C}' <= c <= '\U{1F}')
  }

  predicate AllIntSpace(s: string) {
    forall k :: 0 <= k < |s| ==> IsIntSpace(s[k])
  }

  /** The leading characters of class `sp` removed. */
  function TrimLeft(s: string, sp: char -> bool): (r: string)
    ensures |r| <= |s| && r == s[|s| - |r|..]
    ensures forall k :: 0 <= k < |s| - |r| ==> sp(s[k])
    ensures r == [] || !sp(r[0])
  {
    if |s| > 0 && sp(s[0]) then TrimLeft(s[1..], sp) else s
  }

  /** The trailing characters of class `sp` removed. */
  function TrimRight(s: string, sp: char -> bool): (r: string)
    ensures |r| <= |s| && r == s[..|r|]
    ensures forall k :: |r| <= k < |s| ==> sp(s[k])
    ensures r == [] || !sp(r[|r| - 1])
  {
    if |s| > 0 && sp(s[|s| - 1]) then TrimRight(s[..|s| - 1], sp) else s
  }

  /** What `int()` parses once the whitespace it skips is gone: no such
      whitespace at either end, and the text itself when it is stripped. */
  function IntStrip(s: string): (r: string)
    ensures r == [] || (!IsIntSpace(r[0]) && !IsIntSpace(r[|r| - 1]))
    ensures (s == [] || (!IsIntSpace(s[0]) && !IsIntSpace(s[|s| - 1]))) ==> r == s
    ensures IsStripped(s) ==> r == s
  {
    var l := TrimLeft(s, IsIntSpace);
    var r := TrimRight(l, IsIntSpace);
    assert r != [] ==> r[0] == l[0];
    r
  }

  /** `int(s)`; `None` stands for the `ValueError` Python raises. */
  function ParseInt(s: string): Option<int> {
    var t := IntStrip(s);
    if IsIntLiteral(t) then Some(SignedValue(t)) else None
  }

  /** `s` is a literal between runs of whitespace that `int()` skips: the
      literal is `s[i..j]`. */
  predicate IntText(s: string, i: int, j: int) {
    && 0 <= i <= j <= |s|
    && AllIntSpace(s[..i]) && AllIntSpace(s[j..])
    && IsIntLiteral(s[i..j])
  }

  /** `int(s)` succeeds exactly when `s` is an integer literal surrounded by
      whitespace that `int()` skips, and then gives that literal's value. */
  lemma ParseIntGrammar(s: string)
    ensures ParseInt(s).Some? <==> exists i, j :: IntText(s, i, j)
    ensures forall i, j :: IntText(s, i, j) ==> ParseInt(s) == Some(SignedValue(s[i..j]))
    ensures forall v :: ParseInt(s) == Some(v)
                   <==> exists i, j :: IntText(s, i, j) && v == SignedValue(s[i..j])
  {
    var i0, j0 := IntStripSpan(s);
    if ParseInt(s).Some? {
      assert IntStrip(s) == s[i0..j0];
      assert IntText(s, i0, j0);
    }
    forall i, j | IntText(s, i, j) ensures ParseInt(s) == Some(SignedValue(s[i..j])) {
      ParseIntText(s, i, j);
    }
  }

  /** The value of a literal between skipped whitespace is what `int()` gives. */
  lemma ParseIntText(s: string, i: int, j: int)
    requires IntText(s, i, j)
    ensures ParseInt(s) == Some(SignedValue(s[i..j]))
  {
    LiteralIsStripped(s[i..j]);
    assert s[i..j][0] == s[i] && s[i..j][j - i - 1] == s[j - 1];
    IntStripUnique(s, i, j);
  }

  /** What `IntStrip` leaves is a slice of `s` between runs of skipped
      whitespace. */
  lemma IntStripSpan(s: string) returns (i: int, j: int)
    ensures 0 <= i <= j <= |s| && IntStrip(s) == s[i..j]
    ensures AllIntSpace(s[..i]) && AllIntSpace(s[j..])
    ensures forall m :: 0 <= m < i ==> IsIntSpace(s[m])
    ensures forall m :: j <= m < |s| ==> IsIntSpace(s[m])
  {
    i, j := TrimSpan(s, IsIntSpace);
    forall m | 0 <= m < i ensures IsIntSpace(s[..i][m]) {
      assert s[..i][m] == s[m];
    }
    forall m | 0 <= m < |s| - j ensures IsIntSpace(s[j..][m]) {
      assert s[j..][m] == s[j + m];
    }
  }

  /** Trimming both ends leaves a slice between runs of class `sp`. */
  lemma TrimSpan(s: string, sp: char -> bool) returns (i: int, j: int)
    ensures 0 <= i <= j <= |s| && TrimRight(TrimLeft(s, sp), sp) == s[i..j]
    ensures forall m :: 0 <= m < i ==> sp(s[m])
    ensures forall m :: j <= m < |s| ==> sp(s[m])
  {
    var l := TrimLeft(s, sp);
    i := |s| - |l|;
    var r := TrimRight(l, sp);
    j := i + |r|;
    SuffixTail(s, l, r, sp);
    SliceOfSuffix(s, i, |r|);
  }

  /** A slice of a suffix is a slice of the whole. */
  lemma SliceOfSuffix(s: string, i: int, n: int)
    requires 0 <= i <= i + n <= |s|
    ensures s[i..][..n] == s[i..i + n]
  {
  }

  /** What the right trim of a suffix removes lies in class `sp`. */
  lemma SuffixTail(s: string, l: string, r: string, sp: char -> bool)
    requires |l| <= |s| && l == s[|s| - |l|..]
    requires |r| <= |l| && forall k :: |r| <= k < |l| ==> sp(l[k])
    ensures forall m :: |s| - |l| + |r| <= m < |s| ==> sp(s[m])
  {
    forall m | |s| - |l| + |r| <= m < |s| ensures sp(s[m]) {
      assert s[m] == l[m - (|s| - |l|)];
    }
  }

  /** A literal starts with a sign or a digit and ends with a digit. */
  lemma LiteralIsStripped(t: string)
    requires IsIntLiteral(t)
    ensures t != [] && !IsIntSpace(t[0]) && !IsIntSpace(t[|t| - 1])
  {
    assert IsDigit(t[|t| - 1]);
  }

  /** Removing skipped whitespace from both ends finds the one middle part
      that starts and ends with another character. */
  lemma IntStripUnique(s: string, i: int, j: int)
    requires 0 <= i < j <= |s| && AllIntSpace(s[..i]) && AllIntSpace(s[j..])
    requires !IsIntSpace(s[i]) && !IsIntSpace(s[j - 1])
    ensures IntStrip(s) == s[i..j]
  {
    forall m | 0 <= m < i ensures IsIntSpace(s[m]) {
      assert s[..i][m] == s[m];
    }
    forall m | j <= m < |s| ensures IsIntSpace(s[m]) {
      assert s[j..][m - j] == s[m];
    }
    TrimUnique(s, IsIntSpace, i, j);
  }

  /** Trimming class `sp` from both ends finds the one middle part that starts
      and ends with another character. */
  lemma TrimUnique(s: string, sp: char -> bool, i: int, j: int)
    requires 0 <= i < j <= |s| && !sp(s[i]) && !sp(s[j - 1])
    requires forall m :: 0 <= m < i ==> sp(s[m])
    requires forall m :: j <= m < |s| ==> sp(s[m])
    ensures TrimRight(TrimLeft(s, sp), sp) == s[i..j]
  {
    TrimLeftAt(s, sp, i);
    TrimBothAt(s, sp, i, j);
  }

  /** The right trim of `s[i..]` ends where the characters of class `sp`
      run to the end. */
  lemma TrimBothAt(s: string, sp: char -> bool, i: int, j: int)
    requires 0 <= i < j <= |s| && !sp(s[j - 1])
    requires forall m :: j <= m < |s| ==> sp(s[m])
    ensures TrimRight(s[i..], sp) == s[i..j]
  {
    var l := s[i..];
    forall m | j - i <= m < |l| ensures sp(l[m]) {
      assert l[m] == s[m + i];
    }
    assert l[j - i - 1] == s[j - 1];
    TrimRightAt(l, sp, j - i);
    assert l[..j - i] == s[i..j];
  }

  /** `TrimLeft` stops at the first character outside class `sp`. */
  lemma {:induction false} TrimLeftAt(s: string, sp: char -> bool, i: int)
    requires 0 <= i < |s| && !sp(s[i])
    requires forall m :: 0 <= m < i ==> sp(s[m])
    ensures TrimLeft(s, sp) == s[i..]
    decreases i
  {
    if i > 0 {
      assert sp(s[0]);
      var t := s[1..];
      assert t[i - 1] == s[i];
      forall m | 0 <= m < i - 1 ensures sp(t[m]) {
        assert t[m] == s[m + 1];
      }
      TrimLeftAt(t, sp, i - 1);
      assert t[i - 1..] == s[i..];
    }
  }

  /** `TrimRight` stops at the last character outside class `sp`. */
  lemma {:induction false} TrimRightAt(s: string, sp: char -> bool, n: int)
    requires 0 < n <= |s| && !sp(s[n - 1])
    requires forall m :: n <= m < |s| ==> sp(s[m])
    ensures TrimRight(s, sp) == s[..n]
    decreases |s| - n
  {
    if n < |s| {
      assert sp(s[|s| - 1]);
      var t := s[..|s| - 1];
      assert t[n - 1] == s[n - 1];
      forall m | n <= m < |t| ensures sp(t[m]) {
        assert t[m] == s[m];
      }
      TrimRightAt(t, sp, n);
      assert t[..n] == s[..n];
    }
  }

  /** `str(n)` for `n >= 0`: the shortest digit string whose value is `n`. */
  function NatToStr(n: nat): (r: string)
    ensures |r| >= 1 && AllDigits(r)
    ensures DigitsValue(r) == n
    ensures r[0] == '0' ==> r == "0"
  {
    if n < 10 then [DigitChar(n)]
    else
      var r := NatToStr(n / 10) + [DigitChar(n % 10)];
      assert r[..|r| - 1] == NatToStr(n / 10);
      r
  }

  /** `str(n)`: a minus sign for negative numbers, then the digits of `|n|`. */
  function IntToStr(n: int): string {
    if n < 0 then "-" + NatToStr(-n) else NatToStr(n)
  }

  /** `int(str(n)) == n`: the two conversions are inverse, so `str` never maps
      two numbers to the same string. */
  lemma ParseIntToStr(n: int)
    ensures ParseInt(IntToStr(n)) == Some(n)
    ensures IsStripped(IntToStr(n))
  {
    var s := IntToStr(n);
    var d := NatToStr(if n < 0 then -n else n);
    DigitsStripped(d);
    if n >= 0 {
      DigitsParse(d);
    } else {
      assert s[|s| - 1] == d[|d| - 1];
      SignOrDigitNotSpace(s[0]);
      SignOrDigitNotSpace(s[|s| - 1]);
      assert IntStrip(s) == s;
      assert s[1..] == d;
    }
  }

  lemma SignOrDigitNotSpace(c: char)
    requires c == '-' || IsDigit(c)
    ensures !IsSpace(c)
  {
  }

  /** `str(n)` consists of digits and at most a leading minus sign. */
  lemma IntToStrChars(n: int)
    ensures forall c :: c in IntToStr(n) ==> c == '-' || IsDigit(c)
    ensures IsDigit(IntToStr(n)[|IntToStr(n)| - 1])
    ensures n >= 0 ==> AllDigits(IntToStr(n))
  {
    var d := NatToStr(if n < 0 then -n else n);
    assert forall k :: 0 <= k < |d| ==> IsDigit(d[k]);
    assert IntToStr(n)[|IntToStr(n)| - 1] == d[|d| - 1];
  }

  /** Different numbers have different decimal representations. */
  lemma IntToStrInjective(m: int, n: int)
    requires m != n
    ensures IntToStr(m) != IntToStr(n)
  {
    ParseIntToStr(m);
    ParseIntToStr(n);
  }

  /** A string of digits keeps its value behind any number of leading zeros. */
  lemma {:induction false} LeadingZeros(z: string, s: string)
    requires forall k :: 0 <= k < |z| ==> z[k] == '0'
    requires AllDigits(s)
    ensures AllDigits(z + s) && DigitsValue(z + s) == DigitsValue(s)
  {
    if s == [] {
      assert z + s == z;
      ZerosValue(z);
    } else {
      var t := z + s;
      assert t[..|t| - 1] == z + s[..|s| - 1];
      LeadingZeros(z, s[..|s| - 1]);
    }
  }

  lemma {:induction false} ZerosValue(z: string)
    requires forall k :: 0 <= k < |z| ==> z[k] == '0'
    ensures AllDigits(z) && DigitsValue(z) == 0
  {
    if z != [] {
      ZerosValue(z[..|z| - 1]);
    }
  }

  /** `int()` ignores leading zeros: `int('007') == 7`. */
  lemma ParseIntLeadingZeros(z: string, n: nat)
    requires forall k :: 0 <= k < |z| ==> z[k] == '0'
    ensures ParseInt(z + IntToStr(n)) == Some(n)
  {
    var d := NatToStr(n);
    LeadingZeros(z, d);
    var s := z + d;
    DigitsStripped(s);
    DigitsParse(s);
  }

  /** A non-empty digit string has no whitespace at either end. */
  lemma DigitsStripped(s: string)
    requires s != [] && AllDigits(s)
    ensures IsStripped(s)
  {
    assert IsDigit(s[0]) && IsDigit(s[|s| - 1]);
  }

  /** `int()` of a stripped non-empty digit string is its value. */
  lemma DigitsParse(s: string)
    requires s != [] && AllDigits(s) && IsStripped(s)
    ensures ParseInt(s) == Some(DigitsValue(s))
  {
    assert IntStrip(s) == s;
    assert IsDigit(s[0]);
  }

  /** `int('')` raises, and so does `int()` of a string that is all whitespace. */
  lemma ParseIntBlank(s: string)
    requires forall k :: 0 <= k < |s| ==> IsSpace(s[k])
    ensures ParseInt(s) == None
  {
    var i, j := IntStripSpan(s);
    if i < j {
      assert IntStrip(s)[0] == s[i];
      assert IsSpace(s[i]) && !IsDigit(s[i]);
    }
  }

  /** `int()` treats U+001E as a character, not as whitespace, although
      `str.strip()` removes it. */
  lemma IntSpaceExamples()
    ensures ParseInt("\U{1E}7") == None
    ensures ParseInt("7\U{1E}") == None
  {
    StrayCharacter("\U{1E}7", 0);
    StrayCharacter("7\U{1E}", 1);
  }

  /** A character that is neither whitespace `int()` skips, nor a digit, nor a
      sign makes `int()` raise, wherever it stands. */
  lemma StrayCharacter(s: string, k: nat)
    requires k < |s| && !IsIntSpace(s[k]) && !IsDigit(s[k]) && s[k] != '+' && s[k] != '-'
    ensures ParseInt(s) == None
  {
    var i, j := IntStripSpan(s);
    var t := s[i..j];
    assert t[k - i] == s[k];
    if k > i {
      assert t[1..][k - i - 1] == s[k];
    }
  }

  /** `str.strip()`, unlike `int()`, removes U+001E. */
  lemma StripSeparatorExample()
    ensures Strip("\U{1E}7") == "7"
  {
    var s := "\U{1E}7";
    assert IsSpace(s[0]) && !IsSpace(s[1]);
    assert StripLeft(s) == "7";
  }
}
