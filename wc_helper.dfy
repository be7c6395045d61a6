/**
  The second `wc_default` of rust-wc (rust-wc/src/helper.rs): the same
  single-pass count, with the byte count cast to `i32`, printed as one
  line `" {lines} {words} {bytes} {filename}"`.
*/
module WcHelper {
  import opened Options
  import opened WordCount

  // ---------------------------------------------------------------------------
  // The `as i32` cast

  const TWO_TO_32: int := 0x1_0000_0000
  const TWO_TO_31: int := 0x8000_0000

  /** `usize as i32`: keep the low 32 bits and read them as a two's-complement number. */
  function AsI32(n: nat): int {
    var low := n % TWO_TO_32;
    if low < TWO_TO_31 then low else low - TWO_TO_32
  }

  /** The cast lands in the `i32` range, agrees with `n` modulo 2^32, and keeps every `n` below 2^31. */
  lemma AsI32Range(n: nat)
    ensures -TWO_TO_31 <= AsI32(n) < TWO_TO_31
    ensures (AsI32(n) - n) % TWO_TO_32 == 0
    ensures n < TWO_TO_31 ==> AsI32(n) == n
  {
  }

  // ---------------------------------------------------------------------------
  // Decimal formatting (`Display` for integers) and reading it back

  function DigitChar(d: nat): char
    requires d < 10
  {
    "0123456789"[d]
  }

  predicate IsDigit(c: char) {
    '0' <= c <= '9'
  }

  function DigitValue(c: char): nat
    requires IsDigit(c)
  {
    (c - '0') as nat
  }

  /** The decimal digits of `n`, most significant first, with no leading zero. */
  function NatToString(n: nat): string
    decreases n
  {
    if n < 10 then [DigitChar(n)] else NatToString(n / 10) + [DigitChar(n % 10)]
  }

  /** An integer in decimal, with a leading `-` when negative. */
  function IntToString(i: int): string {
    if i < 0 then "-" + NatToString(-i) else NatToString(i)
  }

  /** The value of a string of decimal digits. */
  function DigitsValue(ds: string): nat
    requires forall k | 0 <= k < |ds| :: IsDigit(ds[k])
    decreases |ds|
  {
    if ds == [] then 0 else 10 * DigitsValue(ds[..|ds| - 1]) + DigitValue(ds[|ds| - 1])
  }

  /** Length of the run of digits at the start of `s`. */
  function DigitRun(s: string): (n: nat)
    ensures n <= |s|
    ensures forall k | 0 <= k < n :: IsDigit(s[k])
    ensures n < |s| ==> !IsDigit(s[n])
  {
    if s == [] || !IsDigit(s[0]) then 0 else 1 + DigitRun(s[1..])
  }

  /** Reads a decimal integer at the start of `s`, returning it and what follows. */
  function ReadInt(s: string): Option<(int, string)> {
    if |s| > 0 && s[0] == '-' then
      var n := DigitRun(s[1..]);
      if n == 0 then None else Some((-(DigitsValue(s[1..][..n]) as int), s[1..][n..]))
    else
      var n := DigitRun(s);
      if n == 0 then None else Some((DigitsValue(s[..n]), s[n..]))
  }

  /** Reads `" " + <int>` at the start of `s`. */
  function ReadField(s: string): Option<(int, string)> {
    if |s| > 0 && s[0] == ' ' then ReadInt(s[1..]) else None
  }

  /** The fields of an output line. */
  datatype Report = Report(lines: int, words: int, bytes: int, filename: string)

  /** Reads an output line back: three space-led integers, a space, then the file name. */
  function ReadReport(line: string): Option<Report> {
    match ReadField(line)
    case None => None
    case Some((lines, r1)) =>
      match ReadField(r1)
      case None => None
      case Some((words, r2)) =>
        match ReadField(r2)
        case None => None
        case Some((bytes, r3)) =>
          if |r3| > 0 && r3[0] == ' ' then Some(Report(lines, words, bytes, r3[1..])) else None
  }

  /** The line `wc_default` prints. */
  function OutputLine(lines: nat, words: nat, bytes: int, filename: string): string {
    " " + NatToString(lines) + " " + NatToString(words) + " " + IntToString(bytes) + " " + filename
  }

  /** Formatting is digits only, never empty, and reads back as the number. */
  lemma {:induction false} NatToStringDigits(n: nat)
    ensures |NatToString(n)| > 0
    ensures forall k | 0 <= k < |NatToString(n)| :: IsDigit(NatToString(n)[k])
    ensures DigitsValue(NatToString(n)) == n
    decreases n
  {
    if n >= 10 {
      NatToStringDigits(n / 10);
      var s := NatToString(n);
      assert s[..|s| - 1] == NatToString(n / 10);
    }
  }

  /** A formatted integer followed by a non-digit reads back as itself, leaving the rest. */
  lemma ReadIntRoundTrip(i: int, rest: string)
    requires rest == [] || !IsDigit(rest[0])
    ensures ReadInt(IntToString(i) + rest) == Some((i, rest))
  {
    if i < 0 {
      ReadNegativeRoundTrip(-i, rest);
    } else {
      ReadNatRoundTrip(i, rest);
    }
  }

  lemma {:induction false} ReadNatRoundTrip(n: nat, rest: string)
    requires rest == [] || !IsDigit(rest[0])
    ensures ReadInt(NatToString(n) + rest) == Some((n, rest))
  {
    var digits := NatToString(n);
    NatToStringDigits(n);
    var s := digits + rest;
    DigitRunOf(digits, rest);
    assert s[..|digits|] == digits && s[|digits|..] == rest;
  }

  lemma {:induction false} ReadNegativeRoundTrip(n: nat, rest: string)
    requires n > 0
    requires rest == [] || !IsDigit(rest[0])
    ensures ReadInt("-" + NatToString(n) + rest) == Some((-(n as int), rest))
  {
    var digits := NatToString(n);
    NatToStringDigits(n);
    var s := "-" + digits + rest;
    assert s[1..] == digits + rest;
    DigitRunOf(digits, rest);
    assert s[1..][..|digits|] == digits && s[1..][|digits|..] == rest;
  }

  lemma {:induction false} DigitRunOf(digits: string, rest: string)
    requires forall k | 0 <= k < |digits| :: IsDigit(digits[k])
    requires rest == [] || !IsDigit(rest[0])
    ensures DigitRun(digits + rest) == |digits|
    decreases |digits|
  {
    if digits != [] {
      assert (digits + rest)[1..] == digits[1..] + rest;
      DigitRunOf(digits[1..], rest);
    } else {
      assert digits + rest == rest;
    }
  }

  /** One space-led field reads back as its number, leaving the rest. */
  lemma ReadFieldRoundTrip(i: int, rest: string)
    requires rest == [] || !IsDigit(rest[0])
    ensures ReadField(" " + IntToString(i) + rest) == Some((i, rest))
  {
    ReadIntRoundTrip(i, rest);
    assert (" " + IntToString(i) + rest)[1..] == IntToString(i) + rest;
  }

  /** The printed line reads back as lines, words, bytes and file name, in that order. */
  lemma OutputLineReadsBack(lines: nat, words: nat, bytes: int, filename: string)
    ensures ReadReport(OutputLine(lines, words, bytes, filename)) == Some(Report(lines, words, bytes, filename))
  {
    var tail3 := " " + filename;
    var tail2 := " " + IntToString(bytes) + tail3;
    var tail1 := " " + NatToString(words) + tail2;
    assert OutputLine(lines, words, bytes, filename) == " " + IntToString(lines) + tail1;
    ReadFieldRoundTrip(lines, tail1);
    ReadFieldRoundTrip(words, tail2);
    ReadFieldRoundTrip(bytes, tail3);
  }

  // ---------------------------------------------------------------------------
  // The scan

  /**
    `wc_default` in rust-wc/src/helper.rs: the counting loop of
    rust-wc/src/main.rs, then the printed line, with the byte count as `i32`.
  */
  method WcDefault(content: string, filename: string) returns (line: string)
    ensures line == OutputLine(Expected(content).lines, Expected(content).words,
                               AsI32(Expected(content).bytes), filename)
  {
    var bytes := AsI32(Utf8Length(content));
    var lines := 0;
    var words := 0;
    var prevWord := CHAR_MAX;
    for i := 0 to |content|
      invariant lines == multiset(content[..i])['\n']
      invariant words == |WordStartsBelow(content, i)|
      invariant prevWord == if i == 0 then CHAR_MAX else content[i - 1]
    {
      var l := content[i];
      assert content[..i + 1] == content[..i] + [l];
      if l == '\n' {
        lines := lines + 1;
      }
      WordStartsStep(content, i);
      if IsAsciiWhitespace(prevWord) {
        if IsAlphanumeric(l) || IsAsciiPunctuation(l) {
          words := words + 1;
        }
      }
      prevWord := l;
    }
    assert content[..|content|] == content;
    Utf8LengthBounds(content);
    if Utf8Length(content) > 0 {
      words := words + 1;
    }
    return OutputLine(lines, words, bytes, filename);
  }
}
