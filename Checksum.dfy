/**
 * The 8-bit complement sum both endpoints compute over a packet's payload followed by the decimal
 * forms of its sequence and acknowledgment numbers, and the validity test built on it.
 */
module Checksum {
  import opened Types

  /** A valid packet's checksum and complement sum add up to this value. */
  const Sentinel := 0xFF

  // ---------------------------------------------------------------------------------------------
  // Decimal form of an integer (Integer.toString)
  // ---------------------------------------------------------------------------------------------

  function DigitChar(d: nat): (c: char)
    requires d < 10
    ensures '0' <= c <= '9' && c as int - '0' as int == d
  {
    ('0' as int + d) as char
  }

  /** The decimal digits of n, most significant first, without leading zeros. */
  function Digits(n: nat): string
  {
    if n < 10 then [DigitChar(n)] else Digits(n / 10) + [DigitChar(n % 10)]
  }

  /** The string Integer.toString produces: a minus sign for negative values, then the digits. */
  function Decimal(n: int): string
  {
    (if n < 0 then "-" else "") + Digits(Magnitude(n))
  }

  function Magnitude(n: int): nat
  {
    if n < 0 then -n else n
  }

  lemma {:induction false} DigitsChars(n: nat)
    ensures 1 <= |Digits(n)| && forall i :: 0 <= i < |Digits(n)| ==> '0' <= Digits(n)[i] <= '9'
  {
    if n >= 10 {
      DigitsChars(n / 10);
    }
  }

  /** The decimal form is a minus sign or digits throughout, and ends in a digit. */
  lemma DecimalChars(n: int)
    ensures var s := Decimal(n);
      && 1 <= |s| && '0' <= s[|s| - 1] <= '9'
      && forall i :: 0 <= i < |s| ==> s[i] == '-' || '0' <= s[i] <= '9'
  {
    DigitsChars(Magnitude(n));
  }

  /** The number a string of decimal digits denotes. */
  function DigitsValue(s: string): int
  {
    if s == [] then 0 else DigitsValue(s[..|s| - 1]) * 10 + (s[|s| - 1] as int - '0' as int)
  }

  /** The number a decimal form denotes, reading an optional leading minus sign. */
  function ParseDecimal(s: string): int
  {
    if 0 < |s| && s[0] == '-' then -DigitsValue(s[1..]) else DigitsValue(s)
  }

  lemma {:induction false} DigitsRoundTrip(n: nat)
    ensures DigitsValue(Digits(n)) == n
  {
    if n >= 10 {
      var s := Digits(n);
      assert s[..|s| - 1] == Digits(n / 10);
      DigitsRoundTrip(n / 10);
    }
  }

  /** The decimal form loses nothing: reading it back gives the number. */
  lemma DecimalRoundTrip(n: int)
    ensures ParseDecimal(Decimal(n)) == n
  {
    DecimalChars(n);
    DigitsChars(Magnitude(n));
    DigitsRoundTrip(Magnitude(n));
    if n < 0 {
      assert Decimal(n)[1..] == Digits(-n);
    } else {
      assert Decimal(n) == Digits(n);
    }
  }

  /** The characters the complement sum runs over. */
  function Content(data: string, seqNum: int, ackNum: int): string
  {
    data + Decimal(seqNum) + Decimal(ackNum)
  }

  // ---------------------------------------------------------------------------------------------
  // The carry fold, as the code performs it on hexadecimal strings
  // ---------------------------------------------------------------------------------------------

  /** The hexadecimal digit character for d, as Integer.toHexString writes it (lower case). */
  function HexDigit(d: nat): (c: char)
    requires d < 16
  {
    if d < 10 then ('0' as int + d) as char else ('a' as int + d - 10) as char
  }

  /** The value Integer.parseInt(_, 16) gives a single hexadecimal digit character. */
  function HexDigitValue(c: char): nat
  {
    if '0' <= c <= '9' then c as int - '0' as int
    else if 'a' <= c <= 'f' then c as int - 'a' as int + 10
    else 0
  }

  /** Integer.toHexString(n) for n >= 0: lower-case digits, most significant first, no leading zeros. */
  function Hex(n: nat): (s: string)
    ensures 1 <= |s|
  {
    if n < 16 then [HexDigit(n)] else Hex(n / 16) + [HexDigit(n % 16)]
  }

  /** Integer.parseInt(s, 16) for a string of hexadecimal digits. */
  function HexValue(s: string): nat
  {
    if s == [] then 0 else HexValue(s[..|s| - 1]) * 16 + HexDigitValue(s[|s| - 1])
  }

  /** Reading back the hexadecimal form gives the number. */
  lemma {:induction false} HexRoundTrip(n: nat)
    ensures HexValue(Hex(n)) == n
  {
    if n < 16 {
      HexDigitRoundTrip(n);
      assert Hex(n)[..0] == [];
    } else {
      var s := Hex(n);
      assert s[..|s| - 1] == Hex(n / 16);
      HexRoundTrip(n / 16);
      HexDigitRoundTrip(n % 16);
    }
  }

  /**
   * The fold applied after each addition, as the code performs it on strings: when the running
   * sum's hexadecimal form has more than two digits, the sum becomes the value of its second and
   * third digits plus the value of its first digit.
   */
  function HexFold(sum: nat): nat
  {
    var total := Hex(sum);
    if |total| > 2 then HexValue(total[1..3]) + HexValue(total[0..1]) else sum
  }

  /** The number written by the first three hexadecimal digits of n (n itself below 0x1000). */
  function LeadingDigits(n: nat): nat
  {
    if n < 0x1000 then n else LeadingDigits(n / 16)
  }

  /**
   * The same fold on numbers: below 0x100 nothing happens; otherwise, with t the leading three
   * hexadecimal digits, the result is t's low byte plus t's high digit.
   */
  function Fold(sum: nat): nat
  {
    if sum < 0x100 then sum else var t := LeadingDigits(sum); t % 256 + t / 256
  }

  lemma HexDigitRoundTrip(d: nat)
    requires d < 16
    ensures HexDigitValue(HexDigit(d)) == d
  {
  }

  lemma HexValueOfDigits(a: nat, b: nat)
    requires a < 16 && b < 16
    ensures HexValue([HexDigit(a)]) == a
    ensures HexValue([HexDigit(a), HexDigit(b)]) == a * 16 + b
  {
    HexDigitRoundTrip(a);
    HexDigitRoundTrip(b);
    assert [HexDigit(a)][..0] == [];
    assert [HexDigit(a), HexDigit(b)][..1] == [HexDigit(a)];
  }

  lemma ThreeHexDigits(n: nat)
    requires 0x100 <= n < 0x1000
    ensures Hex(n) == [HexDigit(n / 256), HexDigit(n / 16 % 16), HexDigit(n % 16)]
  {
    assert n / 16 / 16 == n / 256;
    assert Hex(n / 16) == [HexDigit(n / 256), HexDigit(n / 16 % 16)];
  }

  /** A number below 0x1000 is its three hexadecimal digits recombined. */
  lemma ThreeDigitValue(n: nat)
    requires n < 0x1000
    ensures n == (n / 256) * 256 + (n / 16 % 16) * 16 + n % 16
  {
    assert n == (n / 16) * 16 + n % 16;
    assert n / 16 == (n / 16 / 16) * 16 + n / 16 % 16;
    assert n / 16 / 16 == n / 256;
  }

  /** With exactly three hexadecimal digits the string fold is an end-around carry out of the low byte. */
  lemma HexFoldThreeDigits(n: nat)
    requires 0x100 <= n < 0x1000
    ensures HexFold(n) == n % 256 + n / 256
  {
    var a, b, c := n / 256, n / 16 % 16, n % 16;
    ThreeHexDigits(n);
    var total := Hex(n);
    assert total[1..3] == [HexDigit(b), HexDigit(c)];
    assert total[0..1] == [HexDigit(a)];
    HexValueOfDigits(b, c);
    HexValueOfDigits(a, b);
    ThreeDigitValue(n);
    assert n % 256 == b * 16 + c;
  }

  /** From three digits on, the first three digits of n's hexadecimal form are those of LeadingDigits(n). */
  lemma {:induction false} HexLeadingDigits(n: nat)
    requires 0x100 <= n
    ensures 3 <= |Hex(n)| && Hex(n)[..3] == Hex(LeadingDigits(n))
    ensures 0x100 <= LeadingDigits(n) < 0x1000
  {
    if n < 0x1000 {
      ThreeHexDigits(n);
    } else {
      HexLeadingDigits(n / 16);
      assert Hex(n)[..3] == Hex(n / 16)[..3];
    }
  }

  /** The numeric fold is the code's string fold, for every running sum. */
  lemma FoldIsHexFold(n: nat)
    ensures Fold(n) == HexFold(n)
  {
    if n < 16 {
    } else if n < 0x100 {
      assert |Hex(n)| == 2;
    } else {
      var t := LeadingDigits(n);
      HexLeadingDigits(n);
      HexFoldThreeDigits(t);
      var total := Hex(n);
      assert total[1..3] == Hex(t)[1..3] && total[0..1] == Hex(t)[0..1];
    }
  }

  /** Below 0x1000 the fold is an end-around carry out of the low 8 bits. */
  lemma FoldIsEndAroundCarry(n: nat)
    requires n < 0x1000
    ensures Fold(n) == n % 256 + n / 256
  {
  }

  /**
   * From four hexadecimal digits on, the code's fold reads only the three leading digits and drops
   * the rest, so the result never exceeds 0x10E; for 0x1234 it gives 0x24 where an end-around
   * carry out of the low byte gives 0x46.
   */
  lemma FoldDropsLowDigits(n: nat)
    requires 0x1000 <= n
    ensures HexFold(n) == LeadingDigits(n) % 256 + LeadingDigits(n) / 256 <= 0x10E
    ensures HexFold(0x1234) == 0x24 && 0x1234 % 256 + 0x1234 / 256 == 0x46
  {
    FoldIsHexFold(n);
    HexLeadingDigits(n);
    assert LeadingDigits(0x1234) == LeadingDigits(0x123) == 0x123;
    FoldIsHexFold(0x1234);
  }

  /** One step of the accumulation loop: add the character code, then fold. */
  function Step(sum: nat, c: char): nat
  {
    Fold(sum + c as int)
  }

  /** The running sum after the whole string, accumulated from left to right. */
  function Accumulate(s: string): nat
  {
    if s == [] then 0 else Step(Accumulate(s[..|s| - 1]), s[|s| - 1])
  }

  /** What getComplementSum returns. */
  function ComplementSumOf(data: string, seqNum: int, ackNum: int): nat
  {
    Accumulate(Content(data, seqNum, ackNum))
  }

  /** The receiver-side and sender-side validity test. */
  predicate IsValid(p: Packet)
  {
    p.checksum + ComplementSumOf(p.payload, p.seqnum, p.acknum) == Sentinel
  }

  // ---------------------------------------------------------------------------------------------
  // Reference definitions: one's-complement accumulation over bytes
  // ---------------------------------------------------------------------------------------------

  /** Every character code fits in a byte. */
  predicate Bytes(s: string)
  {
    forall i :: 0 <= i < |s| ==> s[i] as int <= 0xFF
  }

  /** Classic 8-bit accumulation with end-around carry folded after each byte. */
  function EndAroundCarrySum(s: string): nat
  {
    if s == [] then 0
    else
      var t := EndAroundCarrySum(s[..|s| - 1]) + s[|s| - 1] as int;
      t % 256 + t / 256
  }

  /** The plain sum of the character codes. */
  function Total(s: string): nat
  {
    if s == [] then 0 else Total(s[..|s| - 1]) + s[|s| - 1] as int
  }

  lemma BytesPrefix(s: string, n: nat)
    requires Bytes(s) && n <= |s|
    ensures Bytes(s[..n])
  {
    forall i | 0 <= i < n ensures s[..n][i] as int <= 0xFF {
      assert s[..n][i] == s[i];
    }
  }

  /** Over bytes, the code's accumulation is the end-around-carry sum and stays within 8 bits. */
  lemma {:induction false} AccumulateIsEndAroundCarry(s: string)
    requires Bytes(s)
    ensures Accumulate(s) == EndAroundCarrySum(s) <= 0xFF
  {
    if s != [] {
      var p := s[..|s| - 1];
      BytesPrefix(s, |s| - 1);
      AccumulateIsEndAroundCarry(p);
      FoldIsEndAroundCarry(Accumulate(p) + s[|s| - 1] as int);
    }
  }

  /** Adding one byte to a residue in closed form gives the closed form of the larger total. */
  lemma ClosedFormStep(total: nat, c: nat)
    requires c <= 0xFF
    ensures var t := (if total == 0 then 0 else (total - 1) % 255 + 1) + c;
            t % 256 + t / 256 == if total + c == 0 then 0 else (total + c - 1) % 255 + 1
  {
    if total != 0 {
      var q, r := (total - 1) / 255, (total - 1) % 255;
      assert total - 1 == 255 * q + r;
      if r + c < 255 {
        assert total + c - 1 == 255 * q + (r + c);
        assert (total + c - 1) % 255 == r + c;
      } else {
        assert total + c - 1 == 255 * (q + 1) + (r + c - 255);
        assert (total + c - 1) % 255 == r + c - 255;
      }
    }
  }

  /**
   * The end-around-carry sum is determined by the plain sum: 0 for a zero total, otherwise the
   * total reduced into [1, 255] modulo 255.
   */
  lemma {:induction false} EndAroundCarryClosedForm(s: string)
    requires Bytes(s)
    ensures EndAroundCarrySum(s) == if Total(s) == 0 then 0 else (Total(s) - 1) % 255 + 1
  {
    if s != [] {
      BytesPrefix(s, |s| - 1);
      EndAroundCarryClosedForm(s[..|s| - 1]);
      ClosedFormStep(Total(s[..|s| - 1]), s[|s| - 1] as int);
    }
  }

  lemma {:induction false} TotalAtLeast(s: string, i: int)
    requires 0 <= i < |s|
    ensures s[i] as int <= Total(s)
  {
    if i < |s| - 1 {
      assert s[..|s| - 1][i] == s[i];
      TotalAtLeast(s[..|s| - 1], i);
    }
  }

  lemma {:induction false} TotalUpdate(s: string, i: int, c: char)
    requires 0 <= i < |s|
    ensures Total(s[i := c]) == Total(s) - s[i] as int + c as int
  {
    var t := s[i := c];
    if i == |s| - 1 {
      assert t[..|t| - 1] == s[..|s| - 1];
    } else {
      assert t[..|t| - 1] == s[..|s| - 1][i := c];
      TotalUpdate(s[..|s| - 1], i, c);
    }
  }

  lemma ContentBytes(data: string, seqNum: int, ackNum: int)
    requires Bytes(data)
    ensures Bytes(Content(data, seqNum, ackNum))
  {
    var s := Content(data, seqNum, ackNum);
    DecimalChars(seqNum);
    DecimalChars(ackNum);
    forall i | 0 <= i < |s| ensures s[i] as int <= 0xFF {
      if i >= |data| + |Decimal(seqNum)| {
        assert s[i] == Decimal(ackNum)[i - |data| - |Decimal(seqNum)|];
      } else if i >= |data| {
        assert s[i] == Decimal(seqNum)[i - |data|];
      }
    }
  }

  lemma ContentTotalPositive(data: string, seqNum: int, ackNum: int)
    ensures 0 < Total(Content(data, seqNum, ackNum))
  {
    var s := Content(data, seqNum, ackNum);
    DecimalChars(ackNum);
    assert s[|s| - 1] == Decimal(ackNum)[|Decimal(ackNum)| - 1];
    TotalAtLeast(s, |s| - 1);
  }

  /** For byte payloads the complement sum is the total of the content reduced into [1, 255]. */
  lemma ComplementSumClosedForm(data: string, seqNum: int, ackNum: int)
    requires Bytes(data)
    ensures ComplementSumOf(data, seqNum, ackNum) == (Total(Content(data, seqNum, ackNum)) - 1) % 255 + 1
  {
    var s := Content(data, seqNum, ackNum);
    ContentBytes(data, seqNum, ackNum);
    ContentTotalPositive(data, seqNum, ackNum);
    AccumulateIsEndAroundCarry(s);
    EndAroundCarryClosedForm(s);
  }

  /** For byte payloads the complement sum is never 0 and never exceeds 0xFF. */
  lemma ComplementSumRange(data: string, seqNum: int, ackNum: int)
    requires Bytes(data)
    ensures 1 <= ComplementSumOf(data, seqNum, ackNum) <= 0xFF
  {
    ComplementSumClosedForm(data, seqNum, ackNum);
  }

  /** The checksum a host embeds in a packet it builds: 0xFF minus the complement sum. */
  function ChecksumFor(data: string, seqNum: int, ackNum: int): (c: int)
    ensures c + ComplementSumOf(data, seqNum, ackNum) == Sentinel
    ensures Bytes(data) ==> 0 <= c < Sentinel
  {
    var sum := ComplementSumOf(data, seqNum, ackNum);
    assert Bytes(data) ==> 1 <= sum <= 0xFF by {
      if Bytes(data) {
        ComplementSumRange(data, seqNum, ackNum);
      }
    }
    Sentinel - sum
  }

  /** A packet built with the checksum for its own fields. */
  function MakePacket(seqNum: int, ackNum: int, data: string): (p: Packet)
    ensures p.seqnum == seqNum && p.acknum == ackNum && p.payload == data
    ensures IsValid(p)
  {
    Packet(seqNum, ackNum, ChecksumFor(data, seqNum, ackNum), data)
  }

  /**
   * Changing one byte of a valid packet's payload into another byte is detected, unless the two
   * differ by a multiple of 255 (only 0x00 against 0xFF).
   */
  lemma CorruptedByteDetected(p: Packet, i: int, c: char)
    requires IsValid(p) && Bytes(p.payload)
    requires 0 <= i < |p.payload| && c as int <= 0xFF
    requires (c as int - p.payload[i] as int) % 255 != 0
    ensures !IsValid(p.(payload := p.payload[i := c]))
  {
    var data' := p.payload[i := c];
    var s := Content(p.payload, p.seqnum, p.acknum);
    assert Content(data', p.seqnum, p.acknum) == s[i := c];
    assert s[i] == p.payload[i];
    assert Bytes(data');
    TotalUpdate(s, i, c);
    ComplementSumClosedForm(p.payload, p.seqnum, p.acknum);
    ComplementSumClosedForm(data', p.seqnum, p.acknum);
    ResiduesDiffer(Total(s) - 1, c as int - p.payload[i] as int);
  }

  /** Residues modulo 255 add. */
  lemma ResidueOfSum(x: int, delta: int)
    ensures (x + delta) % 255 == (x % 255 + delta % 255) % 255
  {
    var q := x / 255 + delta / 255;
    assert x + delta == 255 * q + (x % 255 + delta % 255);
  }

  lemma ResiduesDiffer(x: int, delta: int)
    requires delta % 255 != 0
    ensures x % 255 != (x + delta) % 255
  {
    ResidueOfSum(x, delta);
    var a, d := x % 255, delta % 255;
    if a + d < 255 {
      assert (a + d) % 255 == a + d;
    } else {
      assert (a + d) % 255 == a + d - 255;
    }
  }

  // ---------------------------------------------------------------------------------------------
  // The accumulation loop
  // ---------------------------------------------------------------------------------------------

  /** getComplementSum: the loop over the content, one character at a time. */
  method GetComplementSum(data: string, seqNum: int, ackNum: int) returns (sum: nat)
    ensures sum == ComplementSumOf(data, seqNum, ackNum)
  {
    var content := data + Decimal(seqNum) + Decimal(ackNum);
    sum := 0;
    var index := 0;
    while index < |content|
      invariant 0 <= index <= |content|
      invariant sum == Accumulate(content[..index])
    {
      assert content[..index + 1][..index] == content[..index];
      ghost var added := sum + content[index] as int;
      sum := sum + content[index] as int;
      var total := Hex(sum);
      if |total| > 2 {
        var carry := HexValue(total[0..1]);
        total := total[1..3];
        sum := HexValue(total);
        sum := sum + carry;
      }
      FoldIsHexFold(added);
      index := index + 1;
    }
    assert content[..index] == content;
  }

  /** validCheckSum: recompute the complement sum and compare with the packet's checksum. */
  method ValidCheckSum(p: Packet) returns (ok: bool)
    ensures ok <==> IsValid(p)
  {
    var sum := GetComplementSum(p.payload, p.seqnum, p.acknum);
    ok := p.checksum + sum == Sentinel;
  }
}
