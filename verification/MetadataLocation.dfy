/** Metadata file locations `<table>/metadata/<version>-<uuid>.metadata.json`: printer and parser. */
module MetadataLocations {
  import opened Common

  const I32_MAX: int := 0x7fff_ffff
  const I32_MIN: int := -0x8000_0000

  predicate InI32(n: int) {
    I32_MIN <= n <= I32_MAX
  }

  /** A UUID as its 32 hexadecimal digits. */
  ghost predicate IsUuid(u: seq<nat>) {
    |u| == 32 && forall i :: 0 <= i < 32 ==> u[i] < 16
  }

  datatype MetadataLocation = MetadataLocation(tableLocation: string, version: int, id: seq<nat>) {
    ghost predicate Valid() {
      InI32(version) && IsUuid(id)
    }
  }

  // ----- printing -----

  const DECIMAL: string := "0123456789"
  const HEX: string := "0123456789abcdef"

  function Digits(n: nat): string {
    if n < 10 then [DECIMAL[n]] else Digits(n / 10) + [DECIMAL[n % 10]]
  }

  function PrintInt(n: int): string {
    if n < 0 then "-" + Digits(-n) else Digits(n)
  }

  function Zeros(n: nat): string {
    seq(n, _ => '0')
  }

  /** `{:0>5}`: fill with zeros on the left, in front of a sign too. */
  function Pad5(s: string): string {
    Zeros(if |s| < 5 then 5 - |s| else 0) + s
  }

  function HexDigits(u: seq<nat>): string
    requires forall i :: 0 <= i < |u| ==> u[i] < 16
  {
    seq(|u|, i requires 0 <= i < |u| => HEX[u[i]])
  }

  function PrintUuid(u: seq<nat>): string
    requires IsUuid(u)
  {
    HexDigits(u[..8]) + "-" + HexDigits(u[8..12]) + "-" + HexDigits(u[12..16]) + "-"
      + HexDigits(u[16..20]) + "-" + HexDigits(u[20..])
  }

  function FileName(version: int, id: seq<nat>): string
    requires IsUuid(id)
  {
    Pad5(PrintInt(version)) + "-" + PrintUuid(id) + ".metadata.json"
  }

  function Print(m: MetadataLocation): string
    requires IsUuid(m.id)
  {
    m.tableLocation + "/metadata" + "/" + FileName(m.version, m.id)
  }

  // ----- what is printed -----

  function Pow10(k: nat): (r: nat)
    ensures r > 0
  {
    if k == 0 then 1 else 10 * Pow10(k - 1)
  }

  /** Five decimal digits or more, the last for the ones, and no needless zero beyond the fifth. */
  ghost predicate IsDecimal(s: string, n: nat) {
    && |s| >= 5 && n < Pow10(|s|) && (|s| > 5 ==> n >= Pow10(|s| - 1))
    && forall i :: 0 <= i < |s| ==> DigitFrom(s, n, i)
  }

  ghost predicate DigitFrom(s: string, n: nat, i: nat)
    requires i < |s|
  {
    s[|s| - 1 - i] as int == '0' as int + n / Pow10(i) % 10
  }

  /** Lower-case hexadecimal digits in groups of 8, 4, 4, 4 and 12. */
  ghost predicate IsHyphenated(s: string, u: seq<nat>)
    requires IsUuid(u)
  {
    && |s| == 36 && s[8] == s[13] == s[18] == s[23] == '-'
    && GroupAt(s, 0, u[..8]) && GroupAt(s, 9, u[8..12]) && GroupAt(s, 14, u[12..16])
    && GroupAt(s, 19, u[16..20]) && GroupAt(s, 24, u[20..])
  }

  ghost predicate GroupAt(s: string, at: nat, digits: seq<nat>)
    requires at + |digits| <= |s|
  {
    forall k :: 0 <= k < |digits| ==> HexAt(s, at + k, digits[k])
  }

  ghost predicate HexAt(s: string, i: nat, digit: nat)
    requires i < |s|
  {
    s[i] as int == if digit < 10 then '0' as int + digit else 'a' as int + (digit - 10)
  }

  lemma TenthOf(n: nat, p: nat)
    requires p > 0
    ensures n / (10 * p) == n / 10 / p
  {
    var q, r := n / 10, n % 10;
    var big, rest := q / p, q % p;
    var whole := p * big;
    assert q == whole + rest;
    assert (10 * p) * big == 10 * whole;
    Quotient(n, 10 * p, big, 10 * rest + r);
  }

  lemma Quotient(n: nat, d: nat, q: nat, r: nat)
    requires d > 0 && n == d * q + r && r < d
    ensures n / d == q
  {
    var other := n / d;
    TimesOrder(d, other + 1, q);
    TimesOrder(d, q + 1, other);
  }

  lemma TimesOrder(d: nat, a: nat, b: nat)
    ensures a <= b ==> d * a <= d * b
  {
  }

  lemma {:induction false} DigitsByPower(n: nat, i: nat)
    requires i < |Digits(n)|
    ensures DigitFrom(Digits(n), n, i)
  {
    if n >= 10 {
      if i > 0 {
        DigitsByPower(n / 10, i - 1);
        TenthOf(n, Pow10(i - 1));
      } else {
        DecimalDigit(n % 10);
      }
    } else {
      DecimalDigit(n);
    }
  }

  lemma {:induction false} DigitsBounds(n: nat)
    ensures |Digits(n)| > 0 && n < Pow10(|Digits(n)|)
    ensures |Digits(n)| > 1 ==> n >= Pow10(|Digits(n)| - 1)
  {
    if n >= 10 {
      DigitsBounds(n / 10);
    }
  }

  lemma {:induction false} ZeroAbove(n: nat, k: nat, i: nat)
    requires n < Pow10(k) && k <= i
    ensures n / Pow10(i) == 0 && n < Pow10(i)
  {
    if k < i {
      ZeroAbove(n, k, i - 1);
    }
    Quotient(n, Pow10(i), 0, n);
  }

  lemma PaddedIsDecimal(n: nat)
    ensures IsDecimal(Pad5(PrintInt(n)), n)
  {
    var d, s := Digits(n), Pad5(PrintInt(n));
    DigitsBounds(n);
    if |d| < 5 {
      ZeroAbove(n, |d|, |s|);
    }
    forall i | 0 <= i < |s|
      ensures DigitFrom(s, n, i)
    {
      if i < |d| {
        DigitsByPower(n, i);
        assert s[|s| - 1 - i] == d[|d| - 1 - i];
      } else {
        ZeroAbove(n, |d|, i);
        assert s[|s| - 1 - i] == '0';
      }
    }
  }

  lemma HexDigitsAt(u: seq<nat>, k: nat)
    requires (forall i :: 0 <= i < |u| ==> u[i] < 16) && k < |u|
    ensures HexAt(HexDigits(u), k, u[k])
  {
  }

  lemma PrintedUuid(u: seq<nat>)
    requires IsUuid(u)
    ensures IsHyphenated(PrintUuid(u), u)
  {
    var s := PrintUuid(u);
    assert u[..8] == u[0..8] && u[20..] == u[20..32];
    Grouped(HexDigits(u[0..8]), HexDigits(u[8..12]), HexDigits(u[12..16]), HexDigits(u[16..20]), HexDigits(u[20..32]), s);
    hide HexDigits, PrintUuid;
    hide GroupAt;
    PrintedGroup(u[0..8], s, 0);
    PrintedGroup(u[8..12], s, 9);
    PrintedGroup(u[12..16], s, 14);
    PrintedGroup(u[16..20], s, 19);
    PrintedGroup(u[20..32], s, 24);
  }

  lemma Grouped(a: string, b: string, c: string, d: string, e: string, s: string)
    requires |a| == 8 && |b| == |c| == |d| == 4 && |e| == 12 && s == a + "-" + b + "-" + c + "-" + d + "-" + e
    ensures |s| == 36 && s[8] == s[13] == s[18] == s[23] == '-'
    ensures s[0..8] == a && s[9..13] == b && s[14..18] == c && s[19..23] == d && s[24..36] == e
  {
  }

  lemma PrintedGroup(digits: seq<nat>, s: string, at: nat)
    requires (forall i :: 0 <= i < |digits| ==> digits[i] < 16) && at + |digits| <= |s|
    requires s[at..at + |digits|] == HexDigits(digits)
    ensures GroupAt(s, at, digits)
  {
    forall k | 0 <= k < |digits|
      ensures HexAt(s, at + k, digits[k])
    {
      HexDigitsAt(digits, k);
      assert s[at + k] == s[at..at + |digits|][k];
    }
  }

  /** The layout of a metadata location. */
  ghost predicate LaidOut(m: MetadataLocation, s: string, version: string, id: string)
    requires m.Valid() && m.version >= 0
  {
    && s == m.tableLocation + "/metadata/" + version + "-" + id + ".metadata.json"
    && IsDecimal(version, m.version) && IsHyphenated(id, m.id)
  }

  /** The table, the directory, the version in five or more decimal digits, the hyphenated id and the ending. */
  lemma PrintedForm(m: MetadataLocation)
    requires m.Valid() && m.version >= 0
    ensures exists version, id :: LaidOut(m, Print(m), version, id)
  {
    var v, u := Pad5(PrintInt(m.version)), PrintUuid(m.id);
    PaddedIsDecimal(m.version);
    PrintedUuid(m.id);
    hide Pad5, PrintInt, PrintUuid, IsDecimal, IsHyphenated;
    assert "/metadata" + "/" == "/metadata/";
    assert Print(m) == m.tableLocation + "/metadata/" + v + "-" + u + ".metadata.json";
    assert LaidOut(m, Print(m), v, u);
  }

  // ----- parsing -----

  function SplitOnce(s: string, c: char): Option<(string, string)> {
    if s == "" then None
    else if s[0] == c then Some(("", s[1..]))
    else
      var rest := SplitOnce(s[1..], c);
      if rest.Some? then Some(([s[0]] + rest.value.0, rest.value.1)) else None
  }

  function RSplitOnce(s: string, c: char): Option<(string, string)> {
    if s == "" then None
    else if s[|s| - 1] == c then Some((s[..|s| - 1], ""))
    else
      var rest := RSplitOnce(s[..|s| - 1], c);
      if rest.Some? then Some((rest.value.0, rest.value.1 + [s[|s| - 1]])) else None
  }

  function StripSuffix(s: string, suffix: string): Option<string> {
    if |suffix| <= |s| && s[|s| - |suffix|..] == suffix then Some(s[..|s| - |suffix|]) else None
  }

  function DecimalValue(c: char): Option<nat> {
    if '0' <= c <= '9' then Some(c as int - '0' as int) else None
  }

  /** The value of a run of decimal digits, empty run 0. */
  function ParseDigits(s: string): Option<nat> {
    if s == "" then Some(0)
    else
      var front, last := ParseDigits(s[..|s| - 1]), DecimalValue(s[|s| - 1]);
      if front.Some? && last.Some? then Some(10 * front.value + last.value) else None
  }

  function Signed(negative: bool, n: int): int {
    if negative then -n else n
  }

  /** `str::parse::<i32>`: an optional sign, at least one digit, and no overflow. */
  function ParseI32(s: string): Option<int> {
    var signed := s != "" && (s[0] == '-' || s[0] == '+');
    var body := if signed then s[1..] else s;
    var magnitude := ParseDigits(body);
    if body == "" || magnitude.None? then None
    else
      var n := Signed(signed && s[0] == '-', magnitude.value);
      if InI32(n) then Some(n) else None
  }

  function HexValue(c: char): Option<nat> {
    if '0' <= c <= '9' then Some(c as int - '0' as int)
    else if 'a' <= c <= 'f' then Some(c as int - 'a' as int + 10)
    else if 'A' <= c <= 'F' then Some(c as int - 'A' as int + 10)
    else None
  }

  function ParseHex(s: string): (r: Option<seq<nat>>)
    ensures r.Some? ==> |r.value| == |s| && forall i :: 0 <= i < |s| ==> r.value[i] < 16
  {
    if s == "" then Some([])
    else
      var first, rest := HexValue(s[0]), ParseHex(s[1..]);
      if first.Some? && rest.Some? then Some([first.value] + rest.value) else None
  }

  function ParseHyphenated(s: string): Option<seq<nat>>
    requires |s| == 36
  {
    if s[8] == '-' && s[13] == '-' && s[18] == '-' && s[23] == '-' then
      ParseHex(s[..8] + s[9..13] + s[14..18] + s[19..23] + s[24..])
    else None
  }

  /** The forms the UUID library accepts: plain, hyphenated, in braces, and as a URN. */
  function ParseUuid(s: string): (r: Option<seq<nat>>)
    ensures r.Some? ==> IsUuid(r.value)
  {
    if |s| == 32 then ParseHex(s)
    else if |s| == 36 then ParseHyphenated(s)
    else if |s| == 38 && s[0] == '{' && s[37] == '}' then ParseHyphenated(s[1..37])
    else if |s| == 45 && s[..9] == "urn:uuid:" then ParseHyphenated(s[9..])
    else None
  }

  function ParseFileName(fileName: string): Option<(int, seq<nat>)> {
    var stem := StripSuffix(fileName, ".metadata.json");
    if stem.None? then None
    else
      var parts := SplitOnce(stem.value, '-');
      if parts.None? then None
      else
        var version, id := ParseI32(parts.value.0), ParseUuid(parts.value.1);
        if version.Some? && id.Some? then Some((version.value, id.value)) else None
  }

  /** Every failure is an error; only success carries a location. */
  function Parse(s: string): Option<MetadataLocation> {
    var parts := RSplitOnce(s, '/');
    if parts.None? then None
    else
      var prefix, file := StripSuffix(parts.value.0, "/metadata"), ParseFileName(parts.value.1);
      if prefix.Some? && file.Some? then Some(MetadataLocation(prefix.value, file.value.0, file.value.1)) else None
  }

  /** The next version with a new id; at the largest 32-bit version the increment wraps around. */
  function WithNextVersion(m: MetadataLocation, id: seq<nat>): MetadataLocation {
    MetadataLocation(m.tableLocation, if m.version == I32_MAX then I32_MIN else m.version + 1, id)
  }

  // ----- round trips -----

  lemma {:induction false} SplitOnceAt(a: string, c: char, b: string)
    requires c !in a
    ensures SplitOnce(a + [c] + b, c) == Some((a, b))
  {
    var s := a + [c] + b;
    if a == "" {
      assert s[1..] == b;
    } else {
      SplitOnceAt(a[1..], c, b);
      assert a == [a[0]] + a[1..];
      assert s[1..] == a[1..] + [c] + b;
    }
  }

  lemma {:induction false} SplitOncePieces(s: string, c: char)
    ensures SplitOnce(s, c).Some? ==> c !in SplitOnce(s, c).value.0
  {
    if s != "" && s[0] != c {
      SplitOncePieces(s[1..], c);
    }
  }

  lemma {:induction false} RSplitOnceAt(a: string, c: char, b: string)
    requires c !in b
    ensures RSplitOnce(a + [c] + b, c) == Some((a, b))
  {
    var s := a + [c] + b;
    if b == "" {
      assert s[..|s| - 1] == a;
    } else {
      var front := b[..|b| - 1];
      RSplitOnceAt(a, c, front);
      assert s[..|s| - 1] == a + [c] + front;
      assert b == front + [b[|b| - 1]];
    }
  }

  lemma StripSuffixAt(a: string, suffix: string)
    ensures StripSuffix(a + suffix, suffix) == Some(a)
  {
  }

  lemma DecimalDigit(n: nat)
    requires n < 10
    ensures DecimalValue(DECIMAL[n]) == Some(n) && IsDigit(DECIMAL[n])
  {
  }

  predicate IsDigit(c: char) {
    '0' <= c <= '9'
  }

  lemma {:induction false} DigitsAreDigits(n: nat)
    ensures Digits(n) != "" && forall c :: c in Digits(n) ==> IsDigit(c)
  {
    hide IsDigit;
    DecimalDigit(n % 10);
    if n < 10 {
      DecimalDigit(n);
    } else {
      DigitsAreDigits(n / 10);
    }
  }

  lemma {:induction false} DigitsRoundTrip(n: nat)
    ensures ParseDigits(Digits(n)) == Some(n)
  {
    hide DecimalValue, IsDigit;
    DigitsAreDigits(n);
    if n < 10 {
      DecimalDigit(n);
      assert Digits(n)[..0] == "";
      ParseLast(Digits(n));
    } else {
      DigitsRoundTrip(n / 10);
      DecimalDigit(n % 10);
      var s := Digits(n);
      assert s == Digits(n / 10) + [DECIMAL[n % 10]];
      assert s[..|s| - 1] == Digits(n / 10);
      ParseLast(s);
    }
  }

  lemma ParseLast(s: string)
    requires s != "" && ParseDigits(s[..|s| - 1]).Some? && DecimalValue(s[|s| - 1]).Some?
    ensures ParseDigits(s) == Some(10 * ParseDigits(s[..|s| - 1]).value + DecimalValue(s[|s| - 1]).value)
  {
  }

  /** Leading zeros do not change the value. */
  lemma {:induction false} LeadingZeros(k: nat, s: string)
    ensures ParseDigits(Zeros(k) + s) == ParseDigits(s)
  {
    if s == "" {
      if k > 0 {
        LeadingZeros(k - 1, "");
        assert Zeros(k) + s == Zeros(k - 1) + "" + "0";
        assert (Zeros(k) + s)[..k - 1] == Zeros(k - 1) + "";
      }
    } else {
      LeadingZeros(k, s[..|s| - 1]);
      assert (Zeros(k) + s)[..k + |s| - 1] == Zeros(k) + s[..|s| - 1];
    }
  }

  /** Padding keeps a digit string a digit string, of the same value. */
  lemma PadKeeps(s: string)
    requires s != "" && forall c :: c in s ==> IsDigit(c)
    ensures Pad5(s) != "" && forall c :: c in Pad5(s) ==> IsDigit(c)
    ensures ParseDigits(Pad5(s)) == ParseDigits(s)
  {
    hide ParseDigits;
    var k := if |s| < 5 then 5 - |s| else 0;
    LeadingZeros(k, s);
    assert IsDigit('0');
    hide IsDigit;
    forall c | c in Zeros(k) + s
      ensures IsDigit(c)
    {
      if c !in s {
        assert c in Zeros(k);
      }
    }
  }

  lemma VersionRoundTrip(version: int)
    requires 0 <= version <= I32_MAX
    ensures ParseI32(Pad5(PrintInt(version))) == Some(version)
    ensures '-' !in Pad5(PrintInt(version)) && '/' !in Pad5(PrintInt(version))
  {
    DigitsAreDigits(version);
    DigitsRoundTrip(version);
    PadKeeps(Digits(version));
    var s := Pad5(Digits(version));
    hide ParseDigits, Digits, Pad5;
    assert s[0] in s && IsDigit(s[0]);
    assert !IsDigit('-') && !IsDigit('+') && !IsDigit('/');
  }

  lemma {:induction false} HexRoundTrip(u: seq<nat>)
    requires forall i :: 0 <= i < |u| ==> u[i] < 16
    ensures ParseHex(HexDigits(u)) == Some(u)
  {
    if u != [] {
      HexRoundTrip(u[1..]);
      assert HexDigits(u)[1..] == HexDigits(u[1..]);
      HexDigit(u[0]);
      assert u == [u[0]] + u[1..];
    } else {
      assert HexDigits(u) == "";
    }
  }

  lemma HexDigit(n: nat)
    requires n < 16
    ensures HexValue(HEX[n]) == Some(n) && HEX[n] != '/'
  {
  }

  lemma UuidRoundTrip(u: seq<nat>)
    requires IsUuid(u)
    ensures ParseUuid(PrintUuid(u)) == Some(u)
    ensures '/' !in PrintUuid(u)
  {
    var s := PrintUuid(u);
    assert s[..8] == HexDigits(u[..8]) && s[9..13] == HexDigits(u[8..12]) && s[14..18] == HexDigits(u[12..16]);
    assert s[19..23] == HexDigits(u[16..20]) && s[24..] == HexDigits(u[20..]);
    assert s[..8] + s[9..13] + s[14..18] + s[19..23] + s[24..] == HexDigits(u);
    HexRoundTrip(u);
    UuidHasNoSlash(u);
  }

  lemma UuidHasNoSlash(u: seq<nat>)
    requires IsUuid(u)
    ensures '/' !in PrintUuid(u)
  {
    NoSlash(u, 0, 8);
    NoSlash(u, 8, 12);
    NoSlash(u, 12, 16);
    NoSlash(u, 16, 20);
    NoSlash(u, 20, 32);
    assert u[..8] == u[0..8] && u[20..] == u[20..32];
    hide HexDigits;
  }

  /** No part of a printed UUID holds a slash. */
  lemma NoSlash(u: seq<nat>, lo: nat, hi: nat)
    requires IsUuid(u) && lo <= hi <= 32
    ensures '/' !in HexDigits(u[lo..hi])
  {
    forall i | 0 <= i < hi - lo
      ensures HexDigits(u[lo..hi])[i] != '/'
    {
      HexDigit(u[lo..hi][i]);
    }
  }

  /** A printed file name holds no slash, and parses back when the version is not negative. */
  lemma FileNameRoundTrip(version: int, id: seq<nat>)
    requires 0 <= version <= I32_MAX && IsUuid(id)
    ensures ParseFileName(FileName(version, id)) == Some((version, id))
    ensures '/' !in FileName(version, id)
  {
    VersionRoundTrip(version);
    UuidRoundTrip(id);
    var v, u := Pad5(PrintInt(version)), PrintUuid(id);
    StripSuffixAt(v + "-" + u, ".metadata.json");
    SplitOnceAt(v, '-', u);
  }

  // ----- what parses -----

  lemma {:induction false} RSplitOncePieces(s: string, c: char)
    ensures var parts := RSplitOnce(s, c);
            parts.Some? ==> s == parts.value.0 + [c] + parts.value.1 && c !in parts.value.1
  {
    if s != "" && s[|s| - 1] != c {
      RSplitOncePieces(s[..|s| - 1], c);
    }
  }

  lemma {:induction false} SplitOnceWhole(s: string, c: char)
    ensures var parts := SplitOnce(s, c); parts.Some? ==> s == parts.value.0 + [c] + parts.value.1
  {
    if s != "" && s[0] != c {
      SplitOnceWhole(s[1..], c);
    }
  }

  /** One decimal digit or more, leading zeros allowed. */
  ghost predicate IsNumber(s: string, n: nat) {
    s != "" && n < Pow10(|s|) && forall i :: 0 <= i < |s| ==> DigitFrom(s, n, i)
  }

  lemma DigitBelow(front: string, last: char, n: nat, i: nat)
    requires i < |front|
    ensures DigitFrom(front + [last], n, i + 1) <==> DigitFrom(front, n / 10, i)
  {
    TenthOf(n, Pow10(i));
    assert (front + [last])[|front| - 1 - i] == front[|front| - 1 - i];
  }

  lemma DigitLast(front: string, last: char, n: nat)
    ensures DigitFrom(front + [last], n, 0) <==> DecimalValue(last) == Some(n % 10)
  {
    assert Pow10(0) == 1 && (front + [last])[|front|] == last;
  }

  lemma TenthBelow(n: nat, k: nat)
    ensures n < Pow10(k + 1) <==> n / 10 < Pow10(k)
  {
  }

  lemma ParseStep(front: string, last: char, n: nat)
    ensures ParseDigits(front + [last]) == Some(n)
       <==> ParseDigits(front) == Some(n / 10) && DecimalValue(last) == Some(n % 10)
  {
    var s := front + [last];
    assert s[..|s| - 1] == front && s[|s| - 1] == last;
    assert DecimalValue(last).Some? ==> DecimalValue(last).value < 10;
    hide DecimalValue;
  }

  lemma {:induction false} DigitsValue(s: string, n: nat)
    ensures ParseDigits(s) == Some(n) <==> n < Pow10(|s|) && forall i :: 0 <= i < |s| ==> DigitFrom(s, n, i)
  {
    if s != "" {
      var front, last := s[..|s| - 1], s[|s| - 1];
      DigitsValue(front, n / 10);
      hide DigitFrom, Pow10, ParseDigits, DecimalValue;
      assert s == front + [last];
      ParseStep(front, last, n);
      TenthBelow(n, |front|);
      DigitLast(front, last, n);
      forall i: nat | i < |front|
        ensures DigitFrom(s, n, i + 1) <==> DigitFrom(front, n / 10, i)
      {
        DigitBelow(front, last, n, i);
      }
      if forall i :: 0 <= i < |front| ==> DigitFrom(front, n / 10, i) {
        forall i | 0 < i < |s|
          ensures DigitFrom(s, n, i)
        {
          assert DigitFrom(front, n / 10, i - 1);
        }
      }
    }
  }

  /** A number with or without a plus sign, or the negation of one with a minus sign, that fits into 32 bits. */
  ghost predicate IsI32Text(s: string, n: int) {
    InI32(n) && (SignedText(s, n) || (n >= 0 && IsNumber(s, n)))
  }

  ghost predicate SignedText(s: string, n: int) {
    s != "" && ((s[0] == '+' && n >= 0 && IsNumber(s[1..], n)) || (s[0] == '-' && n <= 0 && IsNumber(s[1..], -n)))
  }

  lemma I32Exact(s: string, n: int)
    ensures ParseI32(s) == Some(n) <==> IsI32Text(s, n)
  {
    if s != "" {
      if n >= 0 {
        DigitsValue(s, n);
        DigitsValue(s[1..], n);
        assert IsNumber(s, n) ==> DigitFrom(s, n, |s| - 1);
      }
      if n <= 0 {
        DigitsValue(s[1..], -n);
      }
    }
  }

  /** A hexadecimal digit, in lower or in upper case. */
  ghost predicate IsHex(c: char, digit: nat) {
    if digit < 10 then c as int == '0' as int + digit
    else digit < 16 && (c as int == 'a' as int + (digit - 10) || c as int == 'A' as int + (digit - 10))
  }

  ghost predicate IsHexText(s: string, u: seq<nat>) {
    |s| == |u| && forall i :: 0 <= i < |s| ==> IsHex(s[i], u[i])
  }

  lemma {:induction false} HexExact(s: string, u: seq<nat>)
    ensures ParseHex(s) == Some(u) <==> IsHexText(s, u)
  {
    if s != "" && u != [] {
      HexExact(s[1..], u[1..]);
      assert HexValue(s[0]) == Some(u[0]) <==> IsHex(s[0], u[0]);
      assert u == [u[0]] + u[1..];
      forall i | 0 <= i < |s| - 1 && |s| == |u|
        ensures IsHex(s[1..][i], u[1..][i]) <==> IsHex(s[i + 1], u[i + 1])
      {
      }
      hide IsHex, HexValue;
      if IsHexText(s[1..], u[1..]) && IsHex(s[0], u[0]) {
        forall i | 0 <= i < |s|
          ensures IsHex(s[i], u[i])
        {
          assert i > 0 ==> IsHex(s[1..][i - 1], u[1..][i - 1]);
        }
      }
    }
  }

  /** Groups of 8, 4, 4, 4 and 12 digits. */
  ghost predicate IsGrouped(s: string, u: seq<nat>) {
    && |s| == 36 && s[8] == s[13] == s[18] == s[23] == '-'
    && IsHexText(s[..8] + s[9..13] + s[14..18] + s[19..23] + s[24..], u)
  }

  /** Plain, hyphenated, in braces, or as a URN. */
  ghost predicate IsUuidText(s: string, u: seq<nat>) {
    || (|s| == 32 && IsHexText(s, u))
    || IsGrouped(s, u)
    || (exists t :: s == "{" + t + "}" && IsGrouped(t, u))
    || (exists t :: s == "urn:uuid:" + t && IsGrouped(t, u))
  }

  lemma GroupedExact(s: string, u: seq<nat>)
    requires |s| == 36
    ensures ParseHyphenated(s) == Some(u) <==> IsGrouped(s, u)
  {
    HexExact(s[..8] + s[9..13] + s[14..18] + s[19..23] + s[24..], u);
  }

  lemma Braced(s: string, t: string)
    requires |s| == 38
    ensures s == "{" + t + "}" <==> s[0] == '{' && s[37] == '}' && t == s[1..37]
  {
    var whole := "{" + t + "}";
    assert |whole| == |t| + 2 && whole[0] == '{' && whole[|t| + 1] == '}' && whole[1..|t| + 1] == t;
    if s[0] == '{' && s[37] == '}' && t == s[1..37] {
      forall i | 0 <= i < 38
        ensures s[i] == whole[i]
      {
        assert 0 < i < 37 ==> whole[i] == t[i - 1] == s[i];
      }
      assert s == whole;
    }
  }

  lemma Prefixed(s: string, prefix: string, t: string)
    requires |prefix| <= |s|
    ensures s == prefix + t <==> s[..|prefix|] == prefix && t == s[|prefix|..]
  {
    if s[..|prefix|] == prefix {
      assert s == prefix + s[|prefix|..];
    }
  }

  lemma UuidExact(s: string, u: seq<nat>)
    ensures ParseUuid(s) == Some(u) <==> IsUuidText(s, u)
  {
    HexExact(s, u);
    hide ParseHex, ParseHyphenated, IsHexText;
    if |s| == 36 {
      GroupedExact(s, u);
    } else if |s| == 38 {
      GroupedExact(s[1..37], u);
      forall t
        ensures s == "{" + t + "}" <==> s[0] == '{' && s[37] == '}' && t == s[1..37]
      {
        Braced(s, t);
      }
    } else if |s| == 45 {
      GroupedExact(s[9..], u);
      forall t
        ensures s == "urn:uuid:" + t <==> s[..9] == "urn:uuid:" && t == s[9..]
      {
        Prefixed(s, "urn:uuid:", t);
      }
    }
  }

  /** The text of a location: the version ends at the first hyphen after the last slash. */
  ghost predicate IsLocationText(s: string, m: MetadataLocation, version: string, id: string) {
    && s == m.tableLocation + "/metadata/" + (version + "-" + id + ".metadata.json")
    && '/' !in version + "-" + id + ".metadata.json" && '-' !in version
    && IsI32Text(version, m.version) && IsUuidText(id, m.id)
  }

  /** Exactly which texts parse, and to what. */
  lemma ParseExact(s: string, m: MetadataLocation)
    ensures Parse(s) == Some(m) <==> exists version, id :: IsLocationText(s, m, version, id)
  {
    if version, id :| IsLocationText(s, m, version, id) {
      TextParses(s, m, version, id);
    }
    if Parse(s) == Some(m) {
      var version, id := ParsedText(s, m);
    }
  }

  lemma TextParses(s: string, m: MetadataLocation, version: string, id: string)
    requires IsLocationText(s, m, version, id)
    ensures Parse(s) == Some(m)
  {
    I32Exact(version, m.version);
    UuidExact(id, m.id);
    var name := version + "-" + id + ".metadata.json";
    hide ParseI32, ParseUuid, IsI32Text, IsUuidText, RSplitOnce, SplitOnce, StripSuffix;
    assert s == (m.tableLocation + "/metadata") + "/" + name;
    RSplitOnceAt(m.tableLocation + "/metadata", '/', name);
    StripSuffixAt(m.tableLocation, "/metadata");
    StripSuffixAt(version + "-" + id, ".metadata.json");
    SplitOnceAt(version, '-', id);
  }

  lemma ParsedText(s: string, m: MetadataLocation) returns (version: string, id: string)
    requires Parse(s) == Some(m)
    ensures IsLocationText(s, m, version, id)
  {
    hide ParseFileName, IsI32Text, IsUuidText, RSplitOnce, StripSuffix;
    RSplitOncePieces(s, '/');
    var parts := RSplitOnce(s, '/').value;
    SuffixWhole(parts.0, "/metadata");
    version, id := ParsedName(parts.1, m.version, m.id);
    JoinedPath(m.tableLocation, parts.1);
  }

  lemma ParsedName(name: string, n: int, u: seq<nat>) returns (version: string, id: string)
    requires ParseFileName(name) == Some((n, u))
    ensures name == version + "-" + id + ".metadata.json" && '-' !in version
    ensures IsI32Text(version, n) && IsUuidText(id, u)
  {
    hide ParseI32, ParseUuid, IsI32Text, IsUuidText, SplitOnce, StripSuffix;
    SuffixWhole(name, ".metadata.json");
    var stem := StripSuffix(name, ".metadata.json").value;
    SplitOnceWhole(stem, '-');
    SplitOncePieces(stem, '-');
    version, id := SplitOnce(stem, '-').value.0, SplitOnce(stem, '-').value.1;
    I32Exact(version, n);
    UuidExact(id, u);
  }

  lemma JoinedPath(table: string, name: string)
    ensures (table + "/metadata") + "/" + name == table + "/metadata/" + name
  {
    assert "/metadata" + "/" == "/metadata/";
    assert (table + "/metadata") + "/" == table + ("/metadata" + "/");
  }

  lemma SuffixWhole(s: string, suffix: string)
    ensures StripSuffix(s, suffix).Some? ==> s == StripSuffix(s, suffix).value + suffix
  {
  }

  /** Whatever parses has a version of at least 0: the first hyphen of the name ends it. */
  lemma ParsedVersion(s: string)
    requires Parse(s).Some?
    ensures Parse(s).value.Valid() && Parse(s).value.version >= 0
  {
    var fileName := RSplitOnce(s, '/').value.1;
    var stem := StripSuffix(fileName, ".metadata.json").value;
    SplitOncePieces(stem, '-');
    var version := SplitOnce(stem, '-').value.0;
    assert version != "" ==> version[0] in version;
  }

  /** Zeros, none where what follows is longer than any id, then a hyphen and something that starts with a digit. */
  lemma StemUnparsed(zeros: string, rest: string)
    requires '-' !in zeros && |rest| >= 38 && IsDigit(rest[0])
    requires zeros == "" || |rest| <= 40
    ensures ParseFileName(zeros + "-" + rest + ".metadata.json").None?
  {
    hide ParseHex, ParseHyphenated, SplitOnce, ParseDigits;
    StripSuffixAt(zeros + "-" + rest, ".metadata.json");
    SplitOnceAt(zeros, '-', rest);
    assert ParseUuid(rest).None? || zeros == "";
  }

  lemma NoSlashJoined(zeros: string, digits: string, u: string)
    requires '/' !in zeros && '/' !in digits && '/' !in u
    ensures '/' !in zeros + "-" + (digits + "-" + u) + ".metadata.json"
  {
    assert '/' !in digits + "-" + u;
  }

  lemma UuidLength(id: seq<nat>)
    requires IsUuid(id)
    ensures |PrintUuid(id)| == 36
  {
    PrintedUuid(id);
    hide PrintUuid;
  }

  lemma PrintedNegative(version: int, id: seq<nat>)
    requires version < 0 && IsUuid(id)
    ensures FileName(version, id) == Zeros(if |Digits(-version)| < 4 then 4 - |Digits(-version)| else 0)
                                     + "-" + (Digits(-version) + "-" + PrintUuid(id)) + ".metadata.json"
  {
    hide Digits, PrintUuid;
    var digits, u := Digits(-version), PrintUuid(id);
    var zeros := Zeros(if |digits| < 4 then 4 - |digits| else 0);
    assert Pad5(PrintInt(version)) == zeros + ("-" + digits);
    hide Zeros, Pad5, PrintInt;
    Regroup(zeros, digits, u);
  }

  lemma Regroup(zeros: string, digits: string, u: string)
    ensures zeros + ("-" + digits) + "-" + u == zeros + "-" + (digits + "-" + u)
  {
    assert ("-" + digits) + "-" + u == "-" + (digits + "-" + u);
  }

  lemma NegativeStem(zeros: string, digits: string, u: string)
    requires digits != "" && (forall c :: c in digits ==> IsDigit(c)) && |u| == 36 && '/' !in u
    requires '-' !in zeros && '/' !in zeros && |zeros| == if |digits| < 4 then 4 - |digits| else 0
    ensures ParseFileName(zeros + "-" + (digits + "-" + u) + ".metadata.json").None?
    ensures '/' !in zeros + "-" + (digits + "-" + u) + ".metadata.json"
  {
    hide *;
    DigitsFirst(digits, u);
    StemUnparsed(zeros, digits + "-" + u);
    NoSlashJoined(zeros, digits, u);
  }

  /** A negative version is padded in front of its sign, which is then taken for the hyphen before the id: what is left
      of it is empty or zeros, and what is right of it is too long for an id. */
  lemma NegativeUnparsed(version: int, id: seq<nat>)
    requires version < 0 && IsUuid(id)
    ensures ParseFileName(FileName(version, id)).None?
    ensures '/' !in FileName(version, id)
  {
    hide *;
    DigitsAreDigits(-version);
    UuidRoundTrip(id);
    UuidLength(id);
    PrintedNegative(version, id);
    var n := |Digits(-version)|;
    ZerosPlain(if n < 4 then 4 - n else 0);
    NegativeStem(Zeros(if n < 4 then 4 - n else 0), Digits(-version), PrintUuid(id));
  }

  lemma DigitsFirst(digits: string, u: string)
    requires digits != "" && forall c :: c in digits ==> IsDigit(c)
    ensures IsDigit((digits + "-" + u)[0]) && |digits + "-" + u| == |digits| + 1 + |u|
    ensures '/' !in digits
  {
    assert (digits + "-" + u)[0] == digits[0] && digits[0] in digits;
    assert !IsDigit('/');
  }

  lemma ZerosPlain(n: nat)
    ensures |Zeros(n)| == n && '-' !in Zeros(n) && '/' !in Zeros(n)
  {
  }

  /** Printing and parsing give the same location back if the version is not negative, whatever the table location
      contains; with a negative version, what is printed does not parse. */
  lemma RoundTrip(m: MetadataLocation)
    requires m.Valid()
    ensures m.version >= 0 ==> Parse(Print(m)) == Some(m)
    ensures m.version < 0 ==> Parse(Print(m)).None?
  {
    if m.version >= 0 {
      FileNameRoundTrip(m.version, m.id);
    } else {
      NegativeUnparsed(m.version, m.id);
    }
    RSplitOnceAt(m.tableLocation + "/metadata", '/', FileName(m.version, m.id));
    StripSuffixAt(m.tableLocation, "/metadata");
  }

  /** Everything that parses prints to a location that parses to the same value again. */
  lemma ParsedIsStable(s: string)
    requires Parse(s).Some?
    ensures Parse(Print(Parse(s).value)) == Parse(s)
  {
    ParsedVersion(s);
    RoundTrip(Parse(s).value);
  }

  /** One version step from a parsed location survives print and parse, with version + 1 and the same table, if and only
      if the version has not reached the largest 32-bit number. */
  lemma NextVersionRoundTrip(m: MetadataLocation, id: seq<nat>)
    requires m.Valid() && m.version >= 0 && IsUuid(id)
    ensures Parse(Print(WithNextVersion(m, id))) == Some(MetadataLocation(m.tableLocation, m.version + 1, id))
       <==> m.version < I32_MAX
  {
    hide Parse, Print, IsUuid;
    RoundTrip(WithNextVersion(m, id));
  }
}
