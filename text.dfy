/** Characters and strings as the Python code sees them, restricted to the
    ASCII (and Latin-1 whitespace) subset: case mapping, whitespace and
    decimal digits. */
module Text {

  predicate IsLowerAscii(c: char) { 'a' <= c <= 'z' }

  predicate IsUpperAscii(c: char) { 'A' <= c <= 'Z' }

  predicate IsDigit(c: char) { '0' <= c <= '9' }

  /** What `\s` and `str.isspace` accept: tab to carriage return, the four
      information separators, space, NEL and no-break space. */
  predicate IsSpace(c: char) {
    || '\t' <= c <= '\r'
    || (28 <= c as int <= 32)
    || c as int == 0x85
    || c as int == 0xA0
  }

  function Upper(c: char): (u: char)
    ensures !IsLowerAscii(u)
    ensures IsSpace(u) <==> IsSpace(c)
    ensures IsDigit(u) <==> IsDigit(c)
    ensures !IsLowerAscii(c) ==> u == c
  {
    if IsLowerAscii(c) then (c as int - 32) as char else c
  }

  function Lower(c: char): (l: char)
    ensures !IsUpperAscii(l)
    ensures IsSpace(l) <==> IsSpace(c)
    ensures !IsUpperAscii(c) ==> l == c
  {
    if IsUpperAscii(c) then (c as int + 32) as char else c
  }

  /** `str.upper()` */
  function UpperStr(s: string): (r: string)
    ensures |r| == |s|
    ensures forall i :: 0 <= i < |s| ==> r[i] == Upper(s[i])
  {
    seq(|s|, i requires 0 <= i < |s| => Upper(s[i]))
  }

  /** `str.lower()` */
  function LowerStr(s: string): (r: string)
    ensures |r| == |s|
    ensures forall i :: 0 <= i < |s| ==> r[i] == Lower(s[i])
  {
    seq(|s|, i requires 0 <= i < |s| => Lower(s[i]))
  }

  predicate AllLower(s: string) {
    forall i :: 0 <= i < |s| ==> !IsUpperAscii(s[i])
  }

  lemma LowerStrIsLower(s: string)
    ensures AllLower(LowerStr(s))
  {
  }

  /** `s.startswith(p)` */
  predicate StartsWith(s: string, p: string) {
    |p| <= |s| && s[..|p|] == p
  }

  /** First index of the end of the whitespace run starting at `i`. */
  function SkipSpaces(s: string, i: nat): (j: nat)
    requires i <= |s|
    ensures i <= j <= |s|
    decreases |s| - i
  {
    if i < |s| && IsSpace(s[i]) then SkipSpaces(s, i + 1) else i
  }

  /** The run skipped is all whitespace and is maximal. */
  lemma {:induction false} SkipSpacesSpec(s: string, i: nat)
    requires i <= |s|
    ensures forall k :: i <= k < SkipSpaces(s, i) ==> IsSpace(s[k])
    ensures SkipSpaces(s, i) == |s| || !IsSpace(s[SkipSpaces(s, i)])
    decreases |s| - i
  {
    if i < |s| && IsSpace(s[i]) {
      SkipSpacesSpec(s, i + 1);
    }
  }

  /** First index of the end of the digit run starting at `i`. */
  function SkipDigits(s: string, i: nat): (j: nat)
    requires i <= |s|
    ensures i <= j <= |s|
    decreases |s| - i
  {
    if i < |s| && IsDigit(s[i]) then SkipDigits(s, i + 1) else i
  }

  /** The run skipped is all digits and is maximal. */
  lemma {:induction false} SkipDigitsSpec(s: string, i: nat)
    requires i <= |s|
    ensures forall k :: i <= k < SkipDigits(s, i) ==> IsDigit(s[k])
    ensures SkipDigits(s, i) == |s| || !IsDigit(s[SkipDigits(s, i)])
    decreases |s| - i
  {
    if i < |s| && IsDigit(s[i]) {
      SkipDigitsSpec(s, i + 1);
    }
  }

  /** `s.strip()`: leading and trailing whitespace removed. What is left is
      a slice of `s` that neither starts nor ends with whitespace, and all
      that was cut off on either side is whitespace. */
  function Strip(s: string): (r: string)
    ensures |r| <= |s|
    ensures r != [] ==> !IsSpace(r[0]) && !IsSpace(r[|r| - 1])
    ensures exists i, j :: 0 <= i <= j <= |s| && r == s[i..j]
                           && (forall k :: 0 <= k < i ==> IsSpace(s[k]))
                           && (forall k :: j <= k < |s| ==> IsSpace(s[k]))
  {
    var i := SkipSpaces(s, 0);
    var j := TrimEnd(s, |s|, i);
    SkipSpacesSpec(s, 0);
    s[i..j]
  }

  /** The end of `s[lo..j]` once its trailing whitespace is dropped. */
  function TrimEnd(s: string, j: nat, lo: nat): (k: nat)
    requires lo <= j <= |s|
    ensures lo <= k <= j
    ensures k == lo || !IsSpace(s[k - 1])
    ensures forall m :: k <= m < j ==> IsSpace(s[m])
    decreases j
  {
    if j > lo && IsSpace(s[j - 1]) then TrimEnd(s, j - 1, lo) else j
  }

  /** `re.sub(r'\s+', ' ', s)`: every maximal whitespace run becomes one space. */
  function CollapseSpaces(s: string): (r: string)
    ensures |r| <= |s|
    decreases |s|
  {
    if s == [] then []
    else if IsSpace(s[0]) then [' '] + CollapseSpaces(s[SkipSpaces(s, 0)..])
    else [s[0]] + CollapseSpaces(s[1..])
  }

  /** The characters of `s` that are not whitespace, in order. */
  function Visible(s: string): (r: string)
  {
    if s == [] then [] else (if IsSpace(s[0]) then [] else [s[0]]) + Visible(s[1..])
  }

  lemma {:induction false} VisibleOfSpaces(s: string, i: nat, j: nat)
    requires i <= j <= |s|
    requires forall k :: i <= k < j ==> IsSpace(s[k])
    ensures Visible(s[i..]) == Visible(s[j..])
    decreases j - i
  {
    if i < j {
      assert s[i..][1..] == s[i + 1..];
      VisibleOfSpaces(s, i + 1, j);
    }
  }

  /** Collapsing keeps every visible character, in order, and leaves no two
      whitespace characters next to each other; each one left is a space. */
  lemma {:induction false} CollapseSpacesSpec(s: string)
    ensures Visible(CollapseSpaces(s)) == Visible(s)
    ensures forall k :: 0 <= k < |CollapseSpaces(s)| && IsSpace(CollapseSpaces(s)[k]) ==> CollapseSpaces(s)[k] == ' '
    ensures forall k :: 0 <= k < |CollapseSpaces(s)| - 1 ==> !(IsSpace(CollapseSpaces(s)[k]) && IsSpace(CollapseSpaces(s)[k + 1]))
    decreases |s|
  {
    if s == [] {
    } else if IsSpace(s[0]) {
      var j := SkipSpaces(s, 0);
      var rest := s[j..];
      SkipSpacesSpec(s, 0);
      CollapseSpacesSpec(rest);
      VisibleOfSpaces(s, 0, j);
      assert s[0..] == s;
      var r := CollapseSpaces(s);
      assert r == [' '] + CollapseSpaces(rest);
      assert [' '][1..] == [];
      assert Visible(r) == Visible(CollapseSpaces(rest)) by {
        assert r[1..] == CollapseSpaces(rest);
      }
      if CollapseSpaces(rest) != [] {
        assert rest != [] && !IsSpace(rest[0]);
        assert CollapseSpaces(rest)[0] == rest[0];
      }
    } else {
      var rest := s[1..];
      CollapseSpacesSpec(rest);
      var r := CollapseSpaces(s);
      assert r[1..] == CollapseSpaces(rest);
    }
  }

  predicate AllSpace(w: string) {
    forall k :: 0 <= k < |w| ==> IsSpace(w[k])
  }

  predicate NoSpace(v: string) {
    forall k :: 0 <= k < |v| ==> !IsSpace(v[k])
  }

  /** A non-empty whitespace run collapses to exactly one space. */
  lemma CollapseSpacesRun(w: string)
    requires w != [] && AllSpace(w)
    ensures CollapseSpaces(w) == " "
  {
    SkipSpacesSpec(w, 0);
    assert SkipSpaces(w, 0) == |w|;
    assert w[|w|..] == [];
  }

  /** Text without whitespace is left as it is. */
  lemma {:induction false} CollapseSpacesVisible(v: string)
    requires NoSpace(v)
    ensures CollapseSpaces(v) == v
    decreases |v|
  {
    if v != [] {
      CollapseSpacesVisible(v[1..]);
    }
  }

  /** The whitespace run at `i` ends at the same place in `a + b` as in `a`
      when it stops inside `a` or `b` does not start with whitespace. */
  lemma {:induction false} SkipSpacesAppend(a: string, b: string, i: nat)
    requires i <= |a|
    requires SkipSpaces(a, i) < |a| || b == [] || !IsSpace(b[0])
    ensures SkipSpaces(a + b, i) == SkipSpaces(a, i)
    decreases |a| - i
  {
    if i < |a| && IsSpace(a[i]) {
      SkipSpacesAppend(a, b, i + 1);
    }
  }

  /** Collapsing works piece by piece when the cut between the pieces does
      not fall inside a whitespace run. */
  lemma {:induction false} CollapseSpacesAppend(a: string, b: string)
    requires a == [] || b == [] || !IsSpace(a[|a| - 1]) || !IsSpace(b[0])
    ensures CollapseSpaces(a + b) == CollapseSpaces(a) + CollapseSpaces(b)
    decreases |a|
  {
    if a == [] {
      assert a + b == b;
    } else if IsSpace(a[0]) {
      var j := SkipSpaces(a, 0);
      SkipSpacesSpec(a, 0);
      if j < |a| {
        assert a[j..][|a[j..]| - 1] == a[|a| - 1];
        CollapseSpacesAppend(a[j..], b);
      } else {
        assert a[j..] + b == b;
      }
      CollapseSpacesAppendRun(a, b);
    } else {
      assert a[1..] == [] || a[1..][|a[1..]| - 1] == a[|a| - 1];
      CollapseSpacesAppend(a[1..], b);
      CollapseSpacesAppendVisible(a, b);
    }
  }

  /** The step of CollapseSpacesAppend for a leading whitespace run. */
  lemma CollapseSpacesAppendRun(a: string, b: string)
    requires a != [] && IsSpace(a[0])
    requires b == [] || !IsSpace(a[|a| - 1]) || !IsSpace(b[0])
    requires CollapseSpaces(a[SkipSpaces(a, 0)..] + b) == CollapseSpaces(a[SkipSpaces(a, 0)..]) + CollapseSpaces(b)
    ensures CollapseSpaces(a + b) == CollapseSpaces(a) + CollapseSpaces(b)
  {
    var x, y := CollapseSpaces(a[SkipSpaces(a, 0)..]), CollapseSpaces(b);
    CollapseSpacesLeadingRun(a, b);
    assert CollapseSpaces(a) == [' '] + x;
    ConsAssoc(' ', x, y);
  }

  /** With the cut outside a whitespace run, a leading run of `a + b` ends
      where the one of `a` does. */
  lemma CollapseSpacesLeadingRun(a: string, b: string)
    requires a != [] && IsSpace(a[0])
    requires b == [] || !IsSpace(a[|a| - 1]) || !IsSpace(b[0])
    ensures CollapseSpaces(a + b) == [' '] + CollapseSpaces(a[SkipSpaces(a, 0)..] + b)
  {
    var j := SkipSpaces(a, 0);
    var ab := a + b;
    SkipSpacesOfRun(a, b);
    assert ab[0] == a[0];
    SliceOfAppend(a, b, j);
    CollapseSpacesUnfoldRun(ab, a[j..] + b);
  }

  lemma SliceOfAppend(a: string, b: string, j: nat)
    requires j <= |a|
    ensures (a + b)[j..] == a[j..] + b
  {
  }

  lemma CollapseSpacesUnfoldRun(s: string, rest: string)
    requires s != [] && IsSpace(s[0]) && rest == s[SkipSpaces(s, 0)..]
    ensures CollapseSpaces(s) == [' '] + CollapseSpaces(rest)
  {
  }

  /** The leading run of `a + b` is the one of `a` when the cut is not
      inside a whitespace run. */
  lemma SkipSpacesOfRun(a: string, b: string)
    requires a != []
    requires b == [] || !IsSpace(a[|a| - 1]) || !IsSpace(b[0])
    ensures SkipSpaces(a + b, 0) == SkipSpaces(a, 0)
  {
    SkipSpacesSpec(a, 0);
    if SkipSpaces(a, 0) == |a| && b != [] {
      assert IsSpace(a[|a| - 1]);
    }
    SkipSpacesAppend(a, b, 0);
  }

  lemma ConsAssoc(c: char, x: string, y: string)
    ensures [c] + (x + y) == ([c] + x) + y
  {
  }

  /** The step of CollapseSpacesAppend for a leading visible character. */
  lemma CollapseSpacesAppendVisible(a: string, b: string)
    requires a != [] && !IsSpace(a[0])
    requires CollapseSpaces(a[1..] + b) == CollapseSpaces(a[1..]) + CollapseSpaces(b)
    ensures CollapseSpaces(a + b) == CollapseSpaces(a) + CollapseSpaces(b)
  {
    assert (a + b)[0] == a[0];
    assert (a + b)[1..] == a[1..] + b;
    ConsAssoc(a[0], CollapseSpaces(a[1..]), CollapseSpaces(b));
  }

  /** `re.sub(r'\s+', ' ', ...)` on a whitespace run between two visible
      characters (or the ends of the text): the run becomes exactly one
      space and the two sides collapse on their own. */
  lemma CollapseSpacesBetween(a: string, w: string, b: string)
    requires w != [] && AllSpace(w)
    requires a == [] || !IsSpace(a[|a| - 1])
    requires b == [] || !IsSpace(b[0])
    ensures CollapseSpaces(a + w + b) == CollapseSpaces(a) + " " + CollapseSpaces(b)
  {
    var wb := w + b;
    assert IsSpace(w[|w| - 1]);
    CollapseSpacesAppend(w, b);
    CollapseSpacesRun(w);
    assert CollapseSpaces(wb) == " " + CollapseSpaces(b);
    assert wb[0] == w[0];
    CollapseSpacesAppend(a, wb);
    AppendAssoc(a, w, b);
    AppendAssoc(CollapseSpaces(a), " ", CollapseSpaces(b));
  }

  lemma AppendAssoc(x: string, y: string, z: string)
    ensures x + y + z == x + (y + z)
  {
  }

  /** Decimal rendering of a natural number, as `str(n)` writes it. */
  function Decimal(n: nat): (s: string)
    ensures |s| >= 1
    ensures forall i :: 0 <= i < |s| ==> IsDigit(s[i])
  {
    if n < 10 then [('0' as int + n) as char]
    else Decimal(n / 10) + [('0' as int + n % 10) as char]
  }

  /** The number a string of decimal digits denotes. */
  function DigitsValue(s: string): nat
    requires forall i :: 0 <= i < |s| ==> IsDigit(s[i])
  {
    if s == [] then 0
    else
      assert IsDigit(s[|s| - 1]);
      DigitsValue(s[..|s| - 1]) * 10 + (s[|s| - 1] as int - '0' as int)
  }

  lemma {:induction false} DecimalRoundTrip(n: nat)
    ensures DigitsValue(Decimal(n)) == n
  {
    if n >= 10 {
      DecimalRoundTrip(n / 10);
      var s := Decimal(n);
      assert s[..|s| - 1] == Decimal(n / 10);
    }
  }

  function Zeros(k: nat): (z: string)
    ensures |z| == k
    ensures forall i :: 0 <= i < k ==> z[i] == '0'
  {
    seq(k, i => '0')
  }

  /** `s.zfill(width)` for a string of digits: left-padded with `0`. */
  function ZFill(s: string, width: nat): (r: string)
  {
    if |s| >= width then s else Zeros(width - |s|) + s
  }

  lemma {:induction false} LeadingZerosValue(k: nat, s: string)
    requires forall i :: 0 <= i < |s| ==> IsDigit(s[i])
    ensures forall i :: 0 <= i < |Zeros(k) + s| ==> IsDigit((Zeros(k) + s)[i])
    ensures DigitsValue(Zeros(k) + s) == DigitsValue(s)
    decreases |s|, k
  {
    var z := Zeros(k) + s;
    if s == [] {
      assert z == Zeros(k);
      if k > 0 {
        assert z[..|z| - 1] == Zeros(k - 1) + [];
        LeadingZerosValue(k - 1, []);
      }
    } else {
      assert z[..|z| - 1] == Zeros(k) + s[..|s| - 1];
      LeadingZerosValue(k, s[..|s| - 1]);
    }
  }

  /** Zero-padding never truncates, keeps the digits as a suffix and keeps
      the number they denote. */
  lemma ZFillSpec(s: string, width: nat)
    requires forall i :: 0 <= i < |s| ==> IsDigit(s[i])
    ensures |ZFill(s, width)| == if |s| >= width then |s| else width
    ensures ZFill(s, width)[|ZFill(s, width)| - |s|..] == s
    ensures forall i :: 0 <= i < |ZFill(s, width)| - |s| ==> ZFill(s, width)[i] == '0'
    ensures forall i :: 0 <= i < |ZFill(s, width)| ==> IsDigit(ZFill(s, width)[i])
    ensures DigitsValue(ZFill(s, width)) == DigitsValue(s)
  {
    if |s| < width {
      LeadingZerosValue(width - |s|, s);
    }
  }
}
