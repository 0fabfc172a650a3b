/** Decoding of the firmware's throttle report (`vcgencmd get_throttled`).
    The command's output is an input: `None` when running it (or decoding
    its output) raised, `Some(text)` otherwise. */
module RpiStatus {
  import opened Common

  // ---------------------------------------------------------------------
  // Python string helpers
  // ---------------------------------------------------------------------

  /** `str.isspace()` on the ASCII range: space, `\t \n \v \f \r` and the
      separators `\x1c`..`\x1f`. */
  predicate IsSpace(c: char) {
    c == ' ' || (9 <= c as int <= 13) || (0x1c <= c as int <= 0x1f)
  }

  function StripLeft(s: string): (r: string)
    ensures |r| <= |s| && r == s[|s| - |r|..]
    ensures |r| > 0 ==> !IsSpace(r[0])
    ensures forall i :: 0 <= i < |s| - |r| ==> IsSpace(s[i])
  {
    if |s| > 0 && IsSpace(s[0]) then StripLeft(s[1..]) else s
  }

  function StripRight(s: string): (r: string)
    ensures |r| <= |s| && r == s[..|r|]
    ensures |r| > 0 ==> !IsSpace(r[|r| - 1])
    ensures forall i :: |r| <= i < |s| ==> IsSpace(s[i])
  {
    if |s| > 0 && IsSpace(s[|s| - 1]) then StripRight(s[..|s| - 1]) else s
  }

  /** `s.strip()` */
  function Strip(s: string): string {
    StripRight(StripLeft(s))
  }

  /** The text up to the first `c` (all of `s` when there is none). */
  function UpTo(s: string, c: char): (r: string)
    ensures |r| <= |s| && r == s[..|r|] && c !in r
    ensures |r| < |s| ==> s[|r|] == c
  {
    if |s| == 0 || s[0] == c then [] else [s[0]] + UpTo(s[1..], c)
  }

  /** `s.split("=")[1]` for a text holding an `=`: the text between the
      first `=` and the next one (or the end). */
  function SecondField(s: string): (r: string)
    requires '=' in s
    ensures '=' !in r
    ensures exists i :: 0 <= i < |s| && s[i] == '=' && '=' !in s[..i] && r == UpTo(s[i + 1..], '=')
  {
    var before := UpTo(s, '=');
    assert |before| < |s|;
    UpTo(s[|before| + 1..], '=')
  }

  // ---------------------------------------------------------------------
  // int(text, 16)
  // ---------------------------------------------------------------------

  predicate IsHexDigit(c: char) {
    ('0' <= c <= '9') || ('a' <= c <= 'f') || ('A' <= c <= 'F')
  }

  function HexDigitValue(c: char): (v: nat)
    requires IsHexDigit(c)
    ensures v < 16
  {
    if '0' <= c <= '9' then c as int - '0' as int
    else if 'a' <= c <= 'f' then c as int - 'a' as int + 10
    else c as int - 'A' as int + 10
  }

  /** The value of a string of hex digits, most significant first. */
  function HexValue(ds: string): nat
    requires forall i :: 0 <= i < |ds| ==> IsHexDigit(ds[i])
  {
    if |ds| == 0 then 0 else HexValue(ds[..|ds| - 1]) * 16 + HexDigitValue(ds[|ds| - 1])
  }

  /** Python's rule for `_` in a numeric literal: only single underscores
      between digits, or right after a `0x` prefix, never at the end. */
  predicate UnderscoresOk(body: string, prefixed: bool) {
    && |body| > 0
    && body[|body| - 1] != '_'
    && (!prefixed ==> body[0] != '_')
    && forall i :: 0 <= i < |body| - 1 ==> !(body[i] == '_' && body[i + 1] == '_')
  }

  function WithoutUnderscores(s: string): (r: string)
    ensures '_' !in r
    ensures forall c :: c in r ==> c in s
  {
    if |s| == 0 then [] else (if s[0] == '_' then [] else [s[0]]) + WithoutUnderscores(s[1..])
  }

  predicate AllHex(ds: string) {
    forall i :: 0 <= i < |ds| ==> IsHexDigit(ds[i])
  }

  /** The digits after the prefix: valid underscores and at least one hex
      digit, read as a hex number. */
  function ParseDigits(body: string, prefixed: bool): (r: Option<nat>)
    ensures r.Some? ==> UnderscoresOk(body, prefixed)
  {
    var digits := WithoutUnderscores(body);
    if UnderscoresOk(body, prefixed) && |digits| > 0 && AllHex(digits) then Some(HexValue(digits)) else None
  }

  /** An unsigned literal with an optional `0x`/`0X` prefix. */
  function ParseUnsigned(rest: string): (r: Option<nat>)
    ensures r.Some? ==> |rest| > 0
  {
    var prefixed := |rest| >= 2 && rest[0] == '0' && (rest[1] == 'x' || rest[1] == 'X');
    ParseDigits(if prefixed then rest[2..] else rest, prefixed)
  }

  /** `int(text, 16)`: surrounding whitespace is ignored, then an optional
      sign, an optional `0x`/`0X` prefix and hex digits; anything else is a
      `ValueError`, modelled as `None`. */
  function ParseInt16(text: string): (r: Option<int>)
    ensures r.Some? ==> |Strip(text)| > 0
    // a negative value needs a leading minus sign
    ensures r.Some? && r.value < 0 ==> Strip(text)[0] == '-'
    // a sign alone, or a prefix alone, is not a number
    ensures Strip(text) in {"+", "-", "0x", "0X"} ==> r.None?
  {
    var t := Strip(text);
    var signed := |t| > 0 && (t[0] == '+' || t[0] == '-');
    var rest := if signed then t[1..] else t;
    match ParseUnsigned(rest)
    case None => None
    case Some(n) => Some(if signed && t[0] == '-' then -(n as int) else n)
  }

  /** `get_throttled`, given the output of the command: the hex number
      after the first `=`, or 0 when there is no `=`, when the number does
      not parse, or when the command failed. */
  function GetThrottled(out: Option<string>): (v: int)
    ensures out.None? ==> v == 0
    ensures out.Some? && '=' !in out.value ==> v == 0
    ensures out.Some? && '=' in out.value ==>
              v == match ParseInt16(SecondField(Strip(out.value))) case Some(n) => n case None => 0
  {
    match out
    case None => 0
    case Some(text) =>
      if '=' in text then
        assert '=' in Strip(text) by { StripKeepsNonSpace(text, '='); }
        match ParseInt16(SecondField(Strip(text)))
        case Some(n) => n
        case None => 0
      else 0
  }

  lemma StripKeepsNonSpace(s: string, c: char)
    requires c in s && !IsSpace(c)
    ensures c in Strip(s)
  {
    var i :| 0 <= i < |s| && s[i] == c;
    var l := StripLeft(s);
    var k := i - (|s| - |l|);
    assert l[k] == c;
    var r := StripRight(l);
    assert r[k] == c;
  }

  // ---------------------------------------------------------------------
  // The inverse: the firmware's report for a given value
  // ---------------------------------------------------------------------

  function HexChar(d: nat): (c: char)
    requires d < 16
    ensures IsHexDigit(c) && HexDigitValue(c) == d
  {
    if d < 10 then ('0' as int + d) as char else ('a' as int + d - 10) as char
  }

  /** Lower-case hex digits of `n`, most significant first, no leading
      zeros. */
  function HexString(n: nat): (s: string)
    ensures |s| > 0 && AllHex(s)
    ensures '_' !in s
  {
    if n < 16 then [HexChar(n)] else HexString(n / 16) + [HexChar(n % 16)]
  }

  lemma {:induction false} HexValueOfHexString(n: nat)
    ensures HexValue(HexString(n)) == n
  {
    if n >= 16 {
      HexValueOfHexString(n / 16);
      var s := HexString(n);
      assert s[..|s| - 1] == HexString(n / 16);
    }
  }

  lemma {:induction false} WithoutUnderscoresId(s: string)
    requires '_' !in s
    ensures WithoutUnderscores(s) == s
  {
    if |s| > 0 {
      WithoutUnderscoresId(s[1..]);
    }
  }

  lemma StripUnchanged(s: string)
    requires |s| > 0 && !IsSpace(s[0]) && !IsSpace(s[|s| - 1])
    ensures Strip(s) == s
  {
  }

  /** The report line the firmware prints for a reading `n`. */
  function ThrottledReport(n: nat): string {
    "throttled=0x" + HexString(n) + "\n"
  }

  /** Decoding the firmware's report gives back the reading. */
  lemma GetThrottledOfReport(n: nat)
    ensures GetThrottled(Some(ThrottledReport(n))) == n
  {
    var hex := HexString(n);
    var field := "0x" + hex;
    var line := "throttled" + "=" + field;
    assert ThrottledReport(n) == line + "\n";
    StripTrailingNewline(line);
    SecondFieldOfPair("throttled", field);
    ParseHexLiteral(hex);
    HexValueOfHexString(n);
  }

  lemma StripTrailingNewline(line: string)
    requires |line| > 0 && !IsSpace(line[0]) && !IsSpace(line[|line| - 1])
    ensures Strip(line + "\n") == line
  {
    var text := line + "\n";
    assert StripLeft(text) == text;
    assert text[..|text| - 1] == line;
    assert StripRight(text) == StripRight(line) == line;
  }

  lemma SecondFieldOfPair(key: string, value: string)
    requires '=' !in key && '=' !in value
    ensures '=' in key + "=" + value
    ensures SecondField(key + "=" + value) == value
  {
    var s := key + "=" + value;
    assert s[|key|] == '=';
    UpToStopsAt(key, "=" + value, '=');
    assert s[|key| + 1..] == value;
    UpToWhole(value, '=');
  }

  lemma ParseHexLiteral(hex: string)
    requires |hex| > 0 && AllHex(hex) && '_' !in hex
    ensures ParseInt16("0x" + hex) == Some(HexValue(hex))
  {
    var t := "0x" + hex;
    StripUnchanged(t);
    UnsignedText(t);
    PrefixedDigits(hex);
    ParseDigitsPlain(hex);
  }

  /** A stripped text without a sign is read as an unsigned literal. */
  lemma UnsignedText(t: string)
    requires Strip(t) == t && |t| > 0 && t[0] != '+' && t[0] != '-'
    ensures ParseInt16(t) == (match ParseUnsigned(t) case Some(n) => Some(n as int) case None => None)
  {
  }

  lemma PrefixedDigits(hex: string)
    ensures ParseUnsigned("0x" + hex) == ParseDigits(hex, true)
  {
    assert ("0x" + hex)[2..] == hex;
  }

  lemma ParseDigitsPlain(hex: string)
    requires |hex| > 0 && AllHex(hex) && '_' !in hex
    ensures ParseDigits(hex, true) == Some(HexValue(hex))
  {
    WithoutUnderscoresId(hex);
    assert hex[|hex| - 1] != '_';
    assert UnderscoresOk(hex, true);
  }

  lemma {:induction false} UpToStopsAt(a: string, b: string, c: char)
    requires c !in a && |b| > 0 && b[0] == c
    ensures UpTo(a + b, c) == a
  {
    if |a| > 0 {
      assert (a + b)[1..] == a[1..] + b;
      UpToStopsAt(a[1..], b, c);
    }
  }

  lemma {:induction false} UpToWhole(s: string, c: char)
    requires c !in s
    ensures UpTo(s, c) == s
  {
    if |s| > 0 {
      UpToWhole(s[1..], c);
    }
  }

  /** The example output in the code's own comment, `throttled=0x50005`. */
  lemma ExampleReport()
    ensures GetThrottled(Some("throttled=0x50005\n")) == 0x50005
  {
    assert HexString(0x5) == "5";
    assert HexString(0x50) == "50";
    assert HexString(0x500) == "500";
    assert HexString(0x5000) == "5000";
    assert HexString(0x50005) == "50005";
    assert ThrottledReport(0x50005) == "throttled=0x50005\n";
    GetThrottledOfReport(0x50005);
  }

  // ---------------------------------------------------------------------
  // Flags
  // ---------------------------------------------------------------------

  /** Bit `k` of `v` as Python's `v & (1 << k)` sees it (two's complement
      for negative values). */
  predicate Bit(v: int, k: nat) {
    (v / Pow2(k)) % 2 == 1
  }

  /** `throttled or get_throttled()`: the argument unless it is missing or
      zero, in which case a new reading `requery` is used. */
  function Effective(arg: Option<int>, requery: int): int {
    if arg.Some? && arg.value != 0 then arg.value else requery
  }

  /** `is_undervoltage(throttled)`: bit 0 (`& 0x1`) of the argument, or of
      a new reading when the argument is missing or zero. */
  function IsUndervoltage(arg: Option<int>, requery: int): (flag: bool)
    ensures arg.Some? && arg.value != 0 ==> (flag <==> arg.value % 2 == 1)
    ensures arg.None? || arg.value == 0 ==> (flag <==> requery % 2 == 1)
  {
    Bit(Effective(arg, requery), 0)
  }

  /** `is_throttled_now(throttled)`: bit 1 (`& 0x2`), likewise. */
  function IsThrottledNow(arg: Option<int>, requery: int): (flag: bool)
    ensures arg.Some? && arg.value != 0 ==> (flag <==> (arg.value / 2) % 2 == 1)
    ensures arg.None? || arg.value == 0 ==> (flag <==> (requery / 2) % 2 == 1)
  {
    assert Pow2(1) == 2;
    Bit(Effective(arg, requery), 1)
  }

  /** `is_arm_freq_limited(throttled)`: bit 2 (`& 0x4`), likewise. */
  function IsArmFreqLimited(arg: Option<int>, requery: int): (flag: bool)
    ensures arg.Some? && arg.value != 0 ==> (flag <==> (arg.value / 4) % 2 == 1)
    ensures arg.None? || arg.value == 0 ==> (flag <==> (requery / 4) % 2 == 1)
  {
    assert Pow2(2) == 4;
    Bit(Effective(arg, requery), 2)
  }

  /** A reading with the three low flags `u`, `t`, `a` and anything above. */
  function Compose(u: bool, t: bool, a: bool, rest: int): int {
    rest * 8 + (if a then 4 else 0) + (if t then 2 else 0) + (if u then 1 else 0)
  }

  /** Each predicate reads exactly its own bit of a nonzero argument. */
  lemma FlagsDecode(u: bool, t: bool, a: bool, rest: int, requery: int)
    requires Compose(u, t, a, rest) != 0
    ensures IsUndervoltage(Some(Compose(u, t, a, rest)), requery) == u
    ensures IsThrottledNow(Some(Compose(u, t, a, rest)), requery) == t
    ensures IsArmFreqLimited(Some(Compose(u, t, a, rest)), requery) == a
  {
    var v := Compose(u, t, a, rest);
    var ub, tb, ab := (if u then 1 else 0), (if t then 1 else 0), (if a then 1 else 0);
    assert v == 2 * (rest * 4 + ab * 2 + tb) + ub;
    assert v / 2 == rest * 4 + ab * 2 + tb && v % 2 == ub;
    assert v / 2 == 2 * (rest * 2 + ab) + tb;
    assert (v / 2) % 2 == tb;
    assert v == 4 * (rest * 2 + ab) + tb * 2 + ub;
    assert v / 4 == rest * 2 + ab;
    assert (v / 4) % 2 == ab;
  }

  /** A missing or zero argument is falsy: the predicates then decide on a
      requery reading. */
  lemma ZeroArgumentRequeries(arg: Option<int>, requery: int)
    requires arg.None? || arg.value == 0
    ensures IsUndervoltage(arg, requery) == Bit(requery, 0)
    ensures IsThrottledNow(arg, requery) == Bit(requery, 1)
    ensures IsArmFreqLimited(arg, requery) == Bit(requery, 2)
  {
  }

  /** The flags of `report` (voltage and temperature are left out). */
  datatype Status = Status(undervoltage: bool, throttled: bool, armLimited: bool)

  /** `report`: one reading `first` is handed to all three predicates; each
      predicate that re-queries gets its own reading (`againU`, `againT`,
      `againA`, in call order). */
  function Report(first: int, againU: int, againT: int, againA: int): (s: Status)
    ensures first != 0 ==> s == Status(Bit(first, 0), Bit(first, 1), Bit(first, 2))
    ensures first == 0 ==> s == Status(Bit(againU, 0), Bit(againT, 1), Bit(againA, 2))
  {
    Status(
      IsUndervoltage(Some(first), againU),
      IsThrottledNow(Some(first), againT),
      IsArmFreqLimited(Some(first), againA))
  }

  /** For the example `0x50005` of the code's comment: under-voltage and ARM frequency
      capping are flagged, throttling is not. */
  lemma ExampleFlags(againU: int, againT: int, againA: int)
    ensures Report(GetThrottled(Some("throttled=0x50005\n")), againU, againT, againA)
              == Status(true, false, true)
  {
    ExampleReport();
    assert 0x50005 == Compose(true, false, true, 0xA000);
    FlagsDecode(true, false, true, 0xA000, againU);
  }
}
