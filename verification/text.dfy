/** The string primitives the sources lean on: the engine's `ToInt` (a
    base-10 `strtol`), `sprintf` with the `%Nd` / `%0Nd` conversions,
    case-insensitive `String::Find` and `String::Compare`, and the
    decimal-format table shared by the sequencer and the image packer. */
module Text {
  import opened Base

  predicate IsDigit(c: char) { '0' <= c <= '9' }

  predicate AllDigits(s: string) { forall i :: 0 <= i < |s| ==> IsDigit(s[i]) }

  function DigitValue(c: char): nat
    requires IsDigit(c)
  {
    (c as int) - ('0' as int)
  }

  function DigitChar(d: nat): (c: char)
    requires d < 10
    ensures IsDigit(c) && DigitValue(c) == d
  {
    (('0' as int) + d) as char
  }

  /** Value of a run of decimal digits, most significant digit first. */
  function DigitsValue(ds: string): nat
    requires AllDigits(ds)
  {
    if |ds| == 0 then 0 else DigitsValue(ds[..|ds| - 1]) * 10 + DigitValue(ds[|ds| - 1])
  }

  /** The longest prefix of `s` made of decimal digits. */
  function LeadingDigits(s: string): (ds: string)
    ensures |ds| <= |s| && ds == s[..|ds|]
    ensures AllDigits(ds)
    ensures |ds| < |s| ==> !IsDigit(s[|ds|])
  {
    if |s| > 0 && IsDigit(s[0]) then [s[0]] + LeadingDigits(s[1..]) else []
  }

  /** The C library's isspace in the "C" locale. */
  predicate IsSpace(c: char)
  {
    c == ' ' || c == '\t' || c == '\n' || c == '\r' || c as int == 11 || c as int == 12
  }

  function SkipSpace(s: string): (t: string)
    ensures |t| <= |s| && t == s[|s| - |t|..]
    ensures |t| == 0 || !IsSpace(t[0])
    ensures forall i :: 0 <= i < |s| - |t| ==> IsSpace(s[i])
  {
    if |s| > 0 && IsSpace(s[0]) then SkipSpace(s[1..]) else s
  }

  /** The engine's `ToInt`, i.e. `strtol(s, NULL, 10)`: leading white space is
      skipped, an optional sign is read, then the longest run of digits; a
      string without digits yields 0. The clamp on overflow is not modelled. */
  function ToInt(s: string): int
  {
    SignedValue(SkipSpace(s))
  }

  /** An optional sign, then the longest run of digits. */
  function SignedValue(t: string): int
  {
    if |t| > 0 && t[0] == '-' then 0 - DigitsValue(LeadingDigits(t[1..]))
    else if |t| > 0 && t[0] == '+' then DigitsValue(LeadingDigits(t[1..]))
    else DigitsValue(LeadingDigits(t))
  }

  /** Decimal digits of `n` without leading zeros ("0" for zero). */
  function NatToDec(n: nat): (s: string)
    ensures |s| >= 1 && AllDigits(s)
    ensures DigitsValue(s) == n
    ensures n > 0 ==> s[0] != '0'
    decreases n
  {
    if n < 10 then [DigitChar(n)]
    else
      var p := NatToDec(n / 10);
      var s := p + [DigitChar(n % 10)];
      assert s[..|s| - 1] == p;
      s
  }

  function Repeat(c: char, n: nat): (s: string)
    ensures |s| == n
    ensures forall i :: 0 <= i < n ==> s[i] == c
  {
    seq(n, _ => c)
  }

  /** A `printf` integer conversion: `%Nd` (space padding) or `%0Nd` (zero
      padding, placed after the sign), N being the minimum field width. */
  datatype DecFormat = DecFormat(width: nat, zeroPad: bool)

  /** The minus sign `n` is written with, if any. */
  function SignText(n: int): string
  {
    if n < 0 then "-" else ""
  }

  /** The digits of the absolute value of `n`. */
  function Magnitude(n: int): string
  {
    NatToDec(if n < 0 then -n else n)
  }

  /** The unpadded text of `n`: an optional minus sign and its digits. */
  function Plain(n: int): string
  {
    SignText(n) + Magnitude(n)
  }

  /** `sprintf(buf, fmt, n)` for the conversion `f`. */
  function Sprintf(f: DecFormat, n: int): (s: string)
    ensures |s| == if f.width > |Plain(n)| then f.width else |Plain(n)|
  {
    var pad := f.width - |Plain(n)|;
    if pad <= 0 then Plain(n)
    else if f.zeroPad then SignText(n) + Repeat('0', pad) + Magnitude(n)
    else Repeat(' ', pad) + Plain(n)
  }

  /** The format-width table used by both UVSequencer::GetDecFormat and the
      packer's getSequenceDecFormat: width 1 never pads with zeros, width 2
      is selected by 2, and every other value selects width 3. */
  function DecFormatFor(idx: int, leadingZero: bool): (f: DecFormat)
    ensures 1 <= f.width <= 3
    ensures f.width == 1 <==> idx == 1
    ensures f.width == 2 <==> idx == 2
    ensures f.zeroPad <==> leadingZero && idx != 1
  {
    if idx == 1 then DecFormat(1, false)
    else if idx == 2 then DecFormat(2, leadingZero)
    else DecFormat(3, leadingZero)
  }

  /** The C format string of a conversion, e.g. "%03d". */
  function FormatString(f: DecFormat): string
    requires 1 <= f.width <= 9
  {
    "%" + (if f.zeroPad then "0" else "") + [DigitChar(f.width)] + "d"
  }

  /** Reads a format string of the shape "%Nd" or "%0Nd" with one digit N in 1..9. */
  function ParseFormatString(s: string): Option<DecFormat>
  {
    if |s| == 3 && s[0] == '%' && '1' <= s[1] <= '9' && s[2] == 'd' then
      Some(DecFormat(DigitValue(s[1]), false))
    else if |s| == 4 && s[0] == '%' && s[1] == '0' && '1' <= s[2] <= '9' && s[3] == 'd' then
      Some(DecFormat(DigitValue(s[2]), true))
    else None
  }

  /** The format string determines the conversion: reading back the string
      written for `f` gives `f`. */
  lemma FormatStringRoundTrip(f: DecFormat)
    requires 1 <= f.width <= 9
    ensures ParseFormatString(FormatString(f)) == Some(f)
  {
    var s := FormatString(f);
    if f.zeroPad {
      assert s == ['%', '0', DigitChar(f.width), 'd'];
    } else {
      assert s == ['%', DigitChar(f.width), 'd'];
    }
  }

  predicate StartsWith(s: string, prefix: string)
  {
    |prefix| <= |s| && s[..|prefix|] == prefix
  }

  /** ASCII `tolower`, as the engine's case-insensitive string operations use. */
  function LowerAscii(c: char): char
  {
    if 'A' <= c <= 'Z' then ((c as int) + 32) as char else c
  }

  function Lower(s: string): (r: string)
    ensures |r| == |s|
    ensures forall i :: 0 <= i < |s| ==> r[i] == LowerAscii(s[i])
  {
    seq(|s|, i requires 0 <= i < |s| => LowerAscii(s[i]))
  }

  /** `pat` occurs at position `i` of `s`, ignoring ASCII case. */
  predicate MatchesAt(s: string, pat: string, i: nat)
  {
    i + |pat| <= |s| && Lower(s[i..i + |pat|]) == Lower(pat)
  }

  /** `String::Find(pat, start, false)`: the first position at or after
      `start` where `pat` occurs ignoring case; an empty pattern is never found. */
  function FindNoCase(s: string, pat: string, start: nat): (r: Option<nat>)
    ensures r.Some? ==> |pat| > 0 && start <= r.value && MatchesAt(s, pat, r.value)
    ensures r.Some? ==> forall j :: start <= j < r.value ==> !MatchesAt(s, pat, j)
    ensures r.None? && |pat| > 0 ==> forall j :: start <= j ==> !MatchesAt(s, pat, j)
    decreases |s| - start
  {
    if |pat| == 0 || start + |pat| > |s| then None
    else if MatchesAt(s, pat, start) then Some(start)
    else FindNoCase(s, pat, start + 1)
  }

  /** `String::Compare(b, false)`: a three-way comparison ignoring ASCII case,
      zero exactly when the strings are equal up to case. */
  function CompareNoCase(a: string, b: string): (r: int)
    ensures r == 0 <==> Lower(a) == Lower(b)
  {
    if |a| == 0 || |b| == 0 then |a| - |b|
    else if LowerAscii(a[0]) != LowerAscii(b[0]) then
      assert Lower(a)[0] != Lower(b)[0];
      (LowerAscii(a[0]) as int) - (LowerAscii(b[0]) as int)
    else
      var r := CompareNoCase(a[1..], b[1..]);
      assert Lower(a) == [LowerAscii(a[0])] + Lower(a[1..]);
      assert Lower(b) == [LowerAscii(b[0])] + Lower(b[1..]);
      r
  }

  // ---------------------------------------------------------------------
  // Round trip between the formatter and the parser.

  lemma {:induction false} LeadingDigitsOfDigits(s: string)
    requires AllDigits(s)
    ensures LeadingDigits(s) == s
    decreases |s|
  {
    if |s| > 0 {
      LeadingDigitsOfDigits(s[1..]);
      assert [s[0]] + s[1..] == s;
    }
  }

  lemma {:induction false} ZerosValue(k: nat)
    ensures AllDigits(Repeat('0', k)) && DigitsValue(Repeat('0', k)) == 0
  {
    if k > 0 {
      ZerosValue(k - 1);
      assert Repeat('0', k)[..k - 1] == Repeat('0', k - 1);
    }
  }

  /** Leading zeros do not change the value of a run of digits. */
  lemma {:induction false} LeadingZerosValue(k: nat, ds: string)
    requires AllDigits(ds)
    ensures AllDigits(Repeat('0', k) + ds)
    ensures DigitsValue(Repeat('0', k) + ds) == DigitsValue(ds)
    decreases |ds|
  {
    var z := Repeat('0', k);
    if |ds| == 0 {
      ZerosValue(k);
      assert z + ds == z;
    } else {
      var init := ds[..|ds| - 1];
      LeadingZerosValue(k, init);
      assert (z + ds)[..|z + ds| - 1] == z + init;
    }
  }

  lemma {:induction false} SkipSpacePadding(k: nat, rest: string)
    requires |rest| == 0 || !IsSpace(rest[0])
    ensures SkipSpace(Repeat(' ', k) + rest) == rest
  {
    if k > 0 {
      assert (Repeat(' ', k) + rest)[1..] == Repeat(' ', k - 1) + rest;
      SkipSpacePadding(k - 1, rest);
    } else {
      assert Repeat(' ', k) + rest == rest;
    }
  }

  /** The signed, zero-padded text `sign + k zeros + digits` of `n`. */
  function ZeroPadded(n: int, k: nat): string
  {
    SignText(n) + Repeat('0', k) + Magnitude(n)
  }

  lemma ToIntSkipsPadding(j: nat, t: string)
    requires |t| == 0 || !IsSpace(t[0])
    ensures ToInt(Repeat(' ', j) + t) == ToInt(t)
  {
    SkipSpacePadding(j, t);
    SkipSpacePadding(0, t);
    assert Repeat(' ', 0) + t == t;
  }

  lemma ToIntOfDigits(zd: string)
    requires |zd| > 0 && AllDigits(zd)
    ensures ToInt(zd) == DigitsValue(zd)
  {
    SkipSpacePadding(0, zd);
    assert Repeat(' ', 0) + zd == zd;
    LeadingDigitsOfDigits(zd);
  }

  lemma ToIntOfNegatedDigits(zd: string)
    requires AllDigits(zd)
    ensures ToInt("-" + zd) == 0 - DigitsValue(zd)
  {
    var t := "-" + zd;
    SkipSpacePadding(0, t);
    assert Repeat(' ', 0) + t == t;
    assert t[1..] == zd;
    LeadingDigitsOfDigits(zd);
  }

  /** The digits are read up to the first character that is not one, so
      "12px" reads as 12. */
  lemma ToIntStopsAtNonDigit(ds: string, rest: string)
    requires |ds| > 0 && AllDigits(ds)
    requires |rest| == 0 || !IsDigit(rest[0])
    ensures ToInt(ds + rest) == DigitsValue(ds)
  {
    var s := ds + rest;
    assert s[0] == ds[0];
    SkipSpacePadding(0, s);
    assert Repeat(' ', 0) + s == s;
    LeadingDigitsOfPrefix(ds, rest);
  }

  lemma {:induction false} LeadingDigitsOfPrefix(ds: string, rest: string)
    requires AllDigits(ds)
    requires |rest| == 0 || !IsDigit(rest[0])
    ensures LeadingDigits(ds + rest) == ds
    decreases |ds|
  {
    if |ds| > 0 {
      assert (ds + rest)[0] == ds[0];
      assert (ds + rest)[1..] == ds[1..] + rest;
      LeadingDigitsOfPrefix(ds[1..], rest);
      assert [ds[0]] + ds[1..] == ds;
    } else {
      assert ds + rest == rest;
    }
  }

  /** Without a digit after the white space and the optional sign, the
      value is 0; the empty string reads as 0. */
  lemma ToIntWithoutDigits(s: string)
    requires var t := SkipSpace(s);
      var u := if |t| > 0 && (t[0] == '-' || t[0] == '+') then t[1..] else t;
      |u| == 0 || !IsDigit(u[0])
    ensures ToInt(s) == 0
  {
  }

  lemma ZeroPaddedValueNeg(n: int, k: nat)
    requires n < 0
    ensures ToInt(ZeroPadded(n, k)) == n
  {
    var zd := Repeat('0', k) + NatToDec(-n);
    assert ZeroPadded(n, k) == "-" + zd;
    LeadingZerosValue(k, NatToDec(-n));
    ToIntOfNegatedDigits(zd);
  }

  lemma ZeroPaddedValuePos(n: int, k: nat)
    requires n >= 0
    ensures ToInt(ZeroPadded(n, k)) == n
  {
    var zd := Repeat('0', k) + NatToDec(n);
    assert ZeroPadded(n, k) == zd;
    LeadingZerosValue(k, NatToDec(n));
    ToIntOfDigits(zd);
  }

  lemma ZeroPaddedHead(n: int, k: nat)
    ensures |ZeroPadded(n, k)| > 0 && !IsSpace(ZeroPadded(n, k)[0])
    ensures ZeroPadded(n, k)[0] == '-' || IsDigit(ZeroPadded(n, k)[0])
  {
    var body := ZeroPadded(n, k);
    if n < 0 {
      assert body[0] == '-';
    } else if k > 0 {
      assert body[0] == Repeat('0', k)[0];
    } else {
      assert body[0] == NatToDec(n)[0];
    }
  }

  lemma ZeroPaddedValue(n: int, k: nat, j: nat)
    ensures ToInt(Repeat(' ', j) + ZeroPadded(n, k)) == n
  {
    if n < 0 { ZeroPaddedValueNeg(n, k); } else { ZeroPaddedValuePos(n, k); }
    ZeroPaddedHead(n, k);
    ToIntSkipsPadding(j, ZeroPadded(n, k));
  }

  /** What `sprintf` writes is space padding followed by the signed,
      zero-padded digits. */
  lemma SprintfShape(f: DecFormat, n: int) returns (j: nat, k: nat)
    ensures Sprintf(f, n) == Repeat(' ', j) + ZeroPadded(n, k)
  {
    var pad := f.width - |Plain(n)|;
    assert ZeroPadded(n, 0) == Plain(n) by {
      assert Repeat('0', 0) == [];
    }
    assert Repeat(' ', 0) == [];
    if pad <= 0 {
      j, k := 0, 0;
    } else if f.zeroPad {
      j, k := 0, pad;
    } else {
      j, k := pad, 0;
    }
  }

  /** What `sprintf` writes first: a pad space, a minus sign or a digit. */
  lemma SprintfHead(f: DecFormat, n: int)
    ensures |Sprintf(f, n)| > 0
    ensures var c := Sprintf(f, n)[0]; c == ' ' || c == '-' || IsDigit(c)
  {
    var j, k := SprintfShape(f, n);
    ZeroPaddedHead(n, k);
    if j > 0 {
      assert Sprintf(f, n)[0] == Repeat(' ', j)[0];
    } else {
      assert Sprintf(f, n) == ZeroPadded(n, k);
    }
  }

  /** Reading back what `sprintf` wrote gives the number again, whatever the
      width and padding. */
  lemma SprintfToIntRoundTrip(f: DecFormat, n: int)
    ensures ToInt(Sprintf(f, n)) == n
  {
    var j, k := SprintfShape(f, n);
    ZeroPaddedValue(n, k, j);
  }
}
