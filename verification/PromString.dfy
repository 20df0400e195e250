/**
 The number and string routines that prom_init.c brings along: printing a number and reading
 it back, and searching for a substring.
 */
module PromString {
  import opened Base
  import opened Bits
  import opened OpenFirmware

  const ULONG: nat := 0x1_0000_0000_0000_0000
  const UL_DIGITS: nat := 21

  const ZERO: nat := 48       // '0'
  const UPPER_X: nat := 88    // 'X'

  predicate IsDigit(c: nat) { 48 <= c <= 57 }
  predicate IsHexDigit(c: nat) { IsDigit(c) || 97 <= c <= 102 || 65 <= c <= 70 }
  function ToUpper(c: nat): nat { if 97 <= c <= 122 then c - 32 else c }

  function DigitValue(c: nat): nat
    requires IsHexDigit(c)
  {
    if IsDigit(c) then c - 48 else ToUpper(c) - 65 + 10
  }

  /** The characters of a C string, whose terminator reads as 0. */
  function CharAt(s: Bytes, i: nat): Byte {
    if i < |s| then s[i] else 0
  }

  /** Reads digits of the base from position i on, on 64 bits; also says where it stopped. */
  function Scan(s: Bytes, i: nat, base: nat, acc: nat): (nat, nat)
    decreases |s| - i
  {
    if i < |s| && IsHexDigit(s[i]) && DigitValue(s[i]) < base
    then Scan(s, i + 1, base, (acc * base + DigitValue(s[i])) % ULONG)
    else (acc, i)
  }

  function Parsed(s: Bytes): (nat, nat) {
    if CharAt(s, 0) != ZERO then Scan(s, 0, 10, 0)
    else if ToUpper(CharAt(s, 1)) == UPPER_X then Scan(s, 2, 16, 0)
    else Scan(s, 1, 8, 0)
  }

  predicate IsDigitOf(c: nat, base: nat) {
    IsHexDigit(c) && DigitValue(c) < base
  }

  predicate AreDigits(ds: Bytes, base: nat) {
    forall i :: 0 <= i < |ds| ==> IsDigitOf(ds[i], base)
  }

  /** The number that digits stand for. */
  function Positional(ds: Bytes, base: nat): nat {
    if ds == [] then 0 else Positional(ds[..|ds| - 1], base) * base + ValueOf(ds[|ds| - 1])
  }

  function ValueOf(c: nat): nat {
    if IsHexDigit(c) then DigitValue(c) else 0
  }

  /** What goes before the digits says the base: nothing, 0, or 0x. */
  predicate Prefix(lead: Bytes, base: nat) {
    (lead == [] && base == 10) || (lead == [48] && base == 8) || ((lead == [48, 88] || lead == [48, 120]) && base == 16)
  }

  /** The digits are all there is of a number of that base, and do not begin like one of
      another base. */
  predicate Separated(ds: Bytes, rest: Bytes, base: nat) {
    && AreDigits(ds, base) && !IsDigitOf(CharAt(rest, 0), base)
    && (base == 10 ==> CharAt(ds + rest, 0) != ZERO) && (base == 8 ==> ToUpper(CharAt(ds + rest, 0)) != UPPER_X)
  }

  /** prom_strtoul: digits read as the number they stand for, on 64 bits. */
  method Strtoul(s: Bytes) returns (result: nat, end: nat)
    ensures (result, end) == Parsed(s)
    ensures forall lead: Bytes, ds: Bytes, rest: Bytes, base: nat ::
              Prefix(lead, base) && Separated(ds, rest, base) && s == lead + (ds + rest) ==>
                result == Positional(ds, base) % ULONG && end == |lead| + |ds|
  {
    forall lead: Bytes, ds: Bytes, rest: Bytes, base: nat
      | Prefix(lead, base) && Separated(ds, rest, base) && s == lead + (ds + rest)
      ensures Parsed(s) == (Positional(ds, base) % ULONG, |lead| + |ds|)
    {
      ReadsNumber(lead, ds, rest, base);
    }
    var cp, base := 0, 10;
    result := 0;
    if CharAt(s, cp) == ZERO {
      base := 8;
      cp := cp + 1;
      if ToUpper(CharAt(s, cp)) == UPPER_X {
        cp := cp + 1;
        base := 16;
      }
    }
    while IsHexDigit(CharAt(s, cp)) && DigitValue(CharAt(s, cp)) < base
      invariant Parsed(s) == Scan(s, cp, base, result)
      decreases |s| - cp
    {
      result := (result * base + DigitValue(CharAt(s, cp))) % ULONG;
      cp := cp + 1;
    }
    end := cp;
  }

  lemma ReadsNumber(lead: Bytes, ds: Bytes, rest: Bytes, base: nat)
    requires Prefix(lead, base) && Separated(ds, rest, base)
    ensures Parsed(lead + (ds + rest)) == (Positional(ds, base) % ULONG, |lead| + |ds|)
  {
    hide Positional, IsHexDigit, ToUpper, DigitValue;
    var s := lead + (ds + rest);
    assert CharAt(s, 0) == if lead == [] then CharAt(ds + rest, 0) else 48;
    assert |lead| > 0 ==> CharAt(s, 1) == if |lead| == 1 then CharAt(ds + rest, 0) else lead[1];
    LetterX();
    assert Parsed(s) == Scan(s, |lead|, base, 0);
    ReadsDigits(lead, ds, rest, base);
    ScanStops(s, |lead| + |ds|, base, Positional(ds, base) % ULONG, rest);
  }

  lemma LetterX()
    ensures ToUpper(88) == ToUpper(120) == UPPER_X
  {
  }

  lemma ScanStops(s: Bytes, i: nat, base: nat, acc: nat, rest: Bytes)
    requires i <= |s| && s[i..] == rest && !IsDigitOf(CharAt(rest, 0), base)
    ensures Scan(s, i, base, acc) == (acc, i)
  {
    assert i < |s| ==> s[i] == rest[0];
  }

  /** Scanning goes over the digits and has read the number they stand for. */
  lemma {:induction false} ReadsDigits(front: Bytes, ds: Bytes, rest: Bytes, base: nat)
    requires AreDigits(ds, base)
    ensures Scan(front + (ds + rest), |front|, base, 0)
            == Scan(front + (ds + rest), |front| + |ds|, base, Positional(ds, base) % ULONG)
  {
    hide Scan, DigitValue, IsHexDigit;
    if ds != [] {
      var n := |ds| - 1;
      ReadsDigits(front, ds[..n], [ds[n]] + rest, base);
      assert ds[..n] + ([ds[n]] + rest) == ds + rest;
      assert (front + (ds + rest))[|front| + n] == ds[n];
      ScanStep(front + (ds + rest), |front| + n, base, Positional(ds[..n], base));
    }
  }

  /** One digit more. */
  lemma ScanStep(s: Bytes, i: nat, base: nat, v: nat)
    requires i < |s| && IsDigitOf(s[i], base)
    ensures Scan(s, i, base, v % ULONG) == Scan(s, i + 1, base, (v * base + DigitValue(s[i])) % ULONG)
  {
    WrapsOnce(v, base, DigitValue(s[i]));
  }

  lemma WrapsOnce(v: nat, base: nat, d: nat)
    ensures (v % ULONG * base + d) % ULONG == (v * base + d) % ULONG
  {
    var q, r := v / ULONG, v % ULONG;
    assert v * base + d == r * base + d + ULONG * (q * base);
    Wraps(r * base + d, q * base);
  }

  lemma Wraps(x: nat, k: nat)
    ensures (x + ULONG * k) % ULONG == x % ULONG
  {
  }

  // ---- decimal numbers --------------------------------------------------------------------------

  function Decimal(v: nat): (d: Bytes)
    ensures d != [] && IsDigit(d[0]) && (d[0] == ZERO <==> v == 0)
  {
    if v < 10 then [ZERO + v] else Decimal(v / 10) + [ZERO + v % 10]
  }

  function Pow10(n: nat): nat {
    if n == 0 then 1 else 10 * Pow10(n - 1)
  }

  /** prom_print_dec fills a buffer from its end; the buffer is always long enough. */
  method PrintDec(val: nat) returns (out: Bytes)
    requires val < ULONG
    ensures out == Decimal(val)
  {
    var buf := new Byte[UL_DIGITS + 1](_ => 0);
    var v: nat, i := val, UL_DIGITS - 1;
    ghost var tail: Bytes := [];
    assert Pow10(5) == 100000 && Pow10(10) == 10000000000 && Pow10(15) == 1000000000000000;
    assert Pow10(20) == 100000000000000000000;
    while i >= 0
      invariant -1 <= i < UL_DIGITS && v < Pow10(i + 1) && (v > 0 || i == UL_DIGITS - 1)
      invariant Decimal(val) == Decimal(v) + tail && tail == buf[i + 1..UL_DIGITS]
      decreases i
    {
      buf[i] := v % 10 + ZERO;
      tail := [v % 10 + ZERO] + tail;
      assert tail == buf[i..UL_DIGITS];
      DropDigit(val, v, tail);
      v := v / 10;
      if v == 0 {
        break;
      }
      i := i - 1;
    }
    out := buf[i..UL_DIGITS];
  }

  lemma DropDigit(val: nat, v: nat, tail: Bytes)
    requires tail != [] && tail[0] == v % 10 + ZERO && Decimal(val) == Decimal(v) + tail[1..]
    ensures Decimal(val) == if v / 10 == 0 then tail else Decimal(v / 10) + tail
  {
    assert tail == [v % 10 + ZERO] + tail[1..];
    assert v >= 10 ==> Decimal(v / 10) + tail == Decimal(v / 10) + [ZERO + v % 10] + tail[1..];
  }

  /** One digit behind others. */
  lemma DigitBehind(ds: Bytes, base: nat, c: Byte)
    requires AreDigits(ds, base) && IsDigitOf(c, base)
    ensures AreDigits(ds + [c], base) && Positional(ds + [c], base) == Positional(ds, base) * base + DigitValue(c)
  {
    assert (ds + [c])[..|ds|] == ds;
  }

  lemma {:induction false} DecimalStandsFor(v: nat)
    ensures AreDigits(Decimal(v), 10) && Positional(Decimal(v), 10) == v
  {
    hide Positional;
    if v < 10 {
      assert Positional([], 10) == 0 by { NoDigits(10); }
      DigitBehind([], 10, ZERO + v);
      assert [] + [ZERO + v] == Decimal(v);
    } else {
      DecimalStandsFor(v / 10);
      DigitBehind(Decimal(v / 10), 10, ZERO + v % 10);
    }
  }

  lemma NoDigits(base: nat)
    ensures Positional([], base) == 0
  {
  }

  /** A printed number reads back as itself, if what follows is no digit and no X. */
  lemma DecimalReadsBack(v: nat, rest: Bytes)
    requires v < ULONG && !IsHexDigit(CharAt(rest, 0)) && ToUpper(CharAt(rest, 0)) != UPPER_X
    ensures Parsed(Decimal(v) + rest) == (v, |Decimal(v)|)
  {
    hide Positional, Parsed;
    if v == 0 {
      assert Decimal(0) == [ZERO] && [] + rest == rest;
      NoDigits(8);
      ReadsNumber([ZERO], [], rest, 8);
    } else {
      DecimalStandsFor(v);
      ReadsNumber([], Decimal(v), rest, 10);
      assert [] + (Decimal(v) + rest) == Decimal(v) + rest;
    }
  }

  // ---- hexadecimal numbers ------------------------------------------------------------------------

  function HexDigit(v: nat): Byte
    requires v < 16
  {
    if v < 10 then v + 48 else v + 87
  }

  function Hex(v: nat, n: nat): (d: Bytes)
    ensures |d| == n
  {
    if n == 0 then [] else Hex(v / 16, n - 1) + [HexDigit(v % 16)]
  }

  /** prom_print_hex: sixteen digits, from the last to the first. */
  method PrintHex(val: nat) returns (out: Bytes)
    requires val < ULONG
    ensures out == Hex(val, 16)
  {
    var buf := new Byte[17](_ => 0);
    var v: nat := val;
    for i := 16 downto 0
      invariant Hex(val, 16) == Hex(v, i) + buf[i..16]
    {
      HexDrop(v, i + 1, buf[i + 1..16]);
      buf[i] := v % 16 + ZERO;
      if buf[i] > 57 {
        buf[i] := buf[i] + (97 - 48 - 10);
      }
      assert buf[i..16] == [HexDigit(v % 16)] + buf[i + 1..16];
      v := v / 16;
    }
    assert Hex(v, 0) + buf[0..16] == buf[..16];
    out := buf[..16];
  }

  lemma HexDrop(v: nat, n: nat, tail: Bytes)
    requires n > 0
    ensures Hex(v, n) + tail == Hex(v / 16, n - 1) + ([HexDigit(v % 16)] + tail)
  {
  }

  function Pow16(n: nat): nat {
    if n == 0 then 1 else 16 * Pow16(n - 1)
  }

  lemma {:induction false} HexStandsFor(v: nat, n: nat)
    requires v < Pow16(n)
    ensures AreDigits(Hex(v, n), 16) && Positional(Hex(v, n), 16) == v
  {
    hide Positional;
    if n == 0 {
      NoDigits(16);
    } else {
      HexStandsFor(v / 16, n - 1);
      DigitBehind(Hex(v / 16, n - 1), 16, HexDigit(v % 16));
    }
  }

  lemma SixteenDigits()
    ensures Pow16(16) == ULONG
  {
    assert Pow16(4) == 0x1_0000 && Pow16(8) == 0x1_0000_0000 && Pow16(12) == 0x1_0000_0000_0000;
  }

  /** Sixteen hexadecimal digits after "0x" read back as the number. */
  lemma HexReadsBack(v: nat, rest: Bytes)
    requires v < ULONG && !IsHexDigit(CharAt(rest, 0))
    ensures Parsed([48, 120] + Hex(v, 16) + rest) == (v, 18)
  {
    hide Positional, Parsed, Hex, Pow16, DigitValue;
    SixteenDigits();
    HexStandsFor(v, 16);
    ReadsNumber([48, 120], Hex(v, 16), rest, 16);
    assert [48, 120] + (Hex(v, 16) + rest) == [48, 120] + Hex(v, 16) + rest;
  }

  // ---- sizes with a unit ----------------------------------------------------------------------------

  /** A number as the two routines above print it; "0x" goes before the hexadecimal digits. */
  predicate Numeral(text: Bytes, v: nat) {
    v < ULONG && (text == Decimal(v) || text == [48, 120] + Hex(v, 16))
  }

  /** The power of two that a unit stands for. */
  function UnitShift(c: nat): nat {
    if c == 71 || c == 103 then 30
    else if c == 77 || c == 109 then 20
    else if c == 75 || c == 107 then 10
    else 0
  }

  /** The size a text stands for, on 64 bits, and where it ends. */
  function Size(s: Bytes): (nat, nat) {
    var (v, n) := Parsed(s);
    var k := UnitShift(CharAt(s, n));
    (v * Pow2(k) % ULONG, n + if k > 0 then 1 else 0)
  }

  /** A character that ends a number. */
  predicate Stops(c: nat) {
    !IsHexDigit(c) && ToUpper(c) != UPPER_X
  }

  /** prom_memparse. A number that was printed, followed by a unit, is read as so many units;
      without a unit it is read as it is. */
  method Memparse(s: Bytes) returns (ret: nat, end: nat)
    ensures (ret, end) == Size(s)
    ensures forall text: Bytes, v: nat, rest: Bytes ::
              Numeral(text, v) && s == text + rest && Stops(CharAt(rest, 0)) ==>
                var k := UnitShift(CharAt(rest, 0));
                ret == v * Pow2(k) % ULONG && end == |text| + if k > 0 then 1 else 0
  {
    forall text: Bytes, v: nat, rest: Bytes | Numeral(text, v) && s == text + rest && Stops(CharAt(rest, 0))
      ensures Size(s) == (v * Pow2(UnitShift(CharAt(rest, 0))) % ULONG,
                          |text| + if UnitShift(CharAt(rest, 0)) > 0 then 1 else 0)
    {
      SizeReadsBack(text, v, rest);
    }
    ParsedFits(s);
    ret, end := Strtoul(s);
    var c, shift := CharAt(s, end), 0;
    if c == 71 || c == 103 {
      shift := 30;
    }
    if c == 77 || c == 109 {
      shift := 20;
    }
    if c == 75 || c == 107 {
      shift := 10;
    }
    if shift > 0 {
      ret := ret * Pow2(shift) % ULONG;
      end := end + 1;
    }
  }

  lemma SizeReadsBack(text: Bytes, v: nat, rest: Bytes)
    requires Numeral(text, v) && Stops(CharAt(rest, 0))
    ensures var k := UnitShift(CharAt(rest, 0));
            Size(text + rest) == (v * Pow2(k) % ULONG, |text| + if k > 0 then 1 else 0)
  {
    hide Hex, Decimal, UnitShift, Pow2, Parsed, IsHexDigit, ToUpper;
    assert CharAt(text + rest, |text|) == CharAt(rest, 0);
    if text == Decimal(v) {
      DecimalReadsBack(v, rest);
    } else {
      HexReadsBack(v, rest);
      assert |text| == 18;
    }
  }

  lemma {:induction false} ScanFits(s: Bytes, i: nat, base: nat, acc: nat)
    requires acc < ULONG
    ensures Scan(s, i, base, acc).0 < ULONG
    decreases |s| - i
  {
    if i < |s| && IsHexDigit(s[i]) && DigitValue(s[i]) < base {
      ScanFits(s, i + 1, base, (acc * base + DigitValue(s[i])) % ULONG);
    }
  }

  lemma ParsedFits(s: Bytes)
    ensures Parsed(s).0 < ULONG
  {
    ScanFits(s, 0, 10, 0);
    ScanFits(s, 2, 16, 0);
    ScanFits(s, 1, 8, 0);
  }

  // ---- searching ------------------------------------------------------------------------------------

  predicate OccursAt(s1: Bytes, s2: Bytes, i: nat) {
    i + |s2| <= |s1| && s1[i..i + |s2|] == s2
  }

  /** prom_memcmp as prom_strstr uses it. */
  method SameBytes(s1: Bytes, i: nat, s2: Bytes) returns (same: bool)
    requires i + |s2| <= |s1|
    ensures same <==> OccursAt(s1, s2, i)
  {
    var k := 0;
    while k < |s2|
      invariant k <= |s2| && forall j :: 0 <= j < k ==> s1[i + j] == s2[j]
    {
      if s1[i + k] != s2[k] {
        assert s1[i..i + |s2|][k] != s2[k];
        return false;
      }
      k := k + 1;
    }
    assert s1[i..i + |s2|] == s2;
    return true;
  }

  /** prom_strstr: the first occurrence, and none only if there is none. */
  method Strstr(s1: Bytes, s2: Bytes) returns (r: Option<nat>)
    ensures r.Some? ==> OccursAt(s1, s2, r.value) && forall j :: 0 <= j < r.value ==> !OccursAt(s1, s2, j)
    ensures r.None? ==> forall j :: 0 <= j ==> !OccursAt(s1, s2, j)
  {
    var l2 := |s2|;
    if l2 == 0 {
      assert OccursAt(s1, s2, 0);
      return Some(0);
    }
    var l1, at := |s1|, 0;
    while l1 >= l2
      invariant l1 + at == |s1| && forall j :: 0 <= j < at ==> !OccursAt(s1, s2, j)
    {
      l1 := l1 - 1;
      var same := SameBytes(s1, at, s2);
      if same {
        return Some(at);
      }
      at := at + 1;
    }
    return None;
  }
}
