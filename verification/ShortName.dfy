/** The short name of a shard: its 64-bit prefix with tag in 16 hex digits, trailing zeros off. */
module ShortNames {
  import opened Words

  const DIGITS: string := "0123456789abcdef"

  function Power16(n: nat): nat { if n == 0 then 1 else 16 * Power16(n - 1) }

  /** The low `width` hex digits of a number, zero-padded. */
  function Hex(n: nat, width: nat): (s: string)
    ensures |s| == width
  {
    if width == 0 then "" else Hex(n / 16, width - 1) + [DIGITS[n % 16]]
  }

  function TrimZeros(s: string): string {
    if s != "" && s[|s| - 1] == '0' then TrimZeros(s[..|s| - 1]) else s
  }

  const WIDTH: nat := 16

  function MakeShortShardName(id: u64): string { TrimZeros(Hex(id, WIDTH)) }

  // ----- back -----

  predicate IsDigit(c: char) { c in DIGITS }

  function DigitValue(c: char): (d: nat)
    requires IsDigit(c)
    ensures d < 16 && DIGITS[d] == c
  {
    if '0' <= c <= '9' then c as int - '0' as int else 10 + (c as int - 'a' as int)
  }

  predicate IsHex(s: string) { forall c | c in s :: IsDigit(c) }

  function Parse(s: string): nat
    requires IsHex(s)
  {
    if s == "" then 0 else
      assert IsHex(s[..|s| - 1]);
      Parse(s[..|s| - 1]) * 16 + DigitValue(s[|s| - 1])
  }

  function Pad(s: string): string
    decreases 16 - |s|
  {
    if |s| >= 16 then s else Pad(s + "0")
  }

  /** The names the function produces: at most 16 hex digits, the last not a zero. */
  predicate IsName(s: string) {
    |s| <= 16 && IsHex(s) && (s != "" ==> s[|s| - 1] != '0')
  }

  lemma {:induction false} ParseHex(n: nat, width: nat)
    requires n < Power16(width)
    ensures IsHex(Hex(n, width)) && Parse(Hex(n, width)) == n
  {
    if width > 0 {
      ParseHex(n / 16, width - 1);
      var s := Hex(n, width);
      assert s[..|s| - 1] == Hex(n / 16, width - 1);
    }
  }

  lemma LastDigit(n: nat, d: nat)
    requires d < 16
    ensures (n * 16 + d) / 16 == n && (n * 16 + d) % 16 == d
  {
  }

  lemma {:induction false} HexParse(s: string)
    requires IsHex(s)
    ensures Parse(s) < Power16(|s|) && Hex(Parse(s), |s|) == s
  {
    if s != "" {
      HexParse(s[..|s| - 1]);
      LastDigit(Parse(s[..|s| - 1]), DigitValue(s[|s| - 1]));
    }
  }

  lemma {:induction false} TrimIsName(s: string)
    requires IsHex(s) && |s| <= 16
    ensures IsName(TrimZeros(s)) && |TrimZeros(s)| <= |s|
  {
    if s != "" && s[|s| - 1] == '0' { TrimIsName(s[..|s| - 1]); }
  }

  /** Padding undoes trimming, of any string of at most 16 characters. */
  lemma {:induction false} PadTrim(s: string)
    requires |s| <= 16
    ensures Pad(TrimZeros(s)) == Pad(s)
  {
    if s != "" && s[|s| - 1] == '0' {
      PadTrim(s[..|s| - 1]);
      assert s[..|s| - 1] + "0" == s;
    }
  }

  lemma {:induction false} TrimPad(s: string)
    requires IsName(s)
    ensures TrimZeros(Pad(s)) == s
  {
    TrimPadFrom(s, s);
  }

  lemma {:induction false} TrimPadFrom(s: string, t: string)
    requires TrimZeros(t) == s && |t| <= 16
    ensures TrimZeros(Pad(t)) == s
    decreases 16 - |t|
  {
    if |t| < 16 {
      assert (t + "0")[..|t|] == t;
      TrimPadFrom(s, t + "0");
    }
  }

  lemma {:induction false} PadIsHex(s: string)
    requires IsHex(s) && |s| <= 16
    ensures IsHex(Pad(s)) && |Pad(s)| == 16
    decreases 16 - |s|
  {
    if |s| < 16 { PadIsHex(s + "0"); }
  }

  lemma SixteenDigits()
    ensures Power16(16) == TWO_64
  {
    assert Power16(8) == 0x1_0000_0000;
    assert Power16(12) == 0x1_0000_0000_0000;
  }

  /** Every id comes back from its name. */
  lemma NameRoundTrip(id: u64)
    ensures IsName(MakeShortShardName(id))
    ensures IsHex(Pad(MakeShortShardName(id))) && Parse(Pad(MakeShortShardName(id))) == id
  {
    SixteenDigits();
    ParseHex(id, WIDTH);
    TrimIsName(Hex(id, WIDTH));
    PadTrim(Hex(id, WIDTH));
  }

  /** Distinct ids have distinct names. */
  lemma NamesDistinct(a: u64, b: u64)
    ensures MakeShortShardName(a) == MakeShortShardName(b) <==> a == b
  {
    NameRoundTrip(a);
    NameRoundTrip(b);
  }

  /** Every name is the name of an id. */
  lemma IdRoundTrip(s: string)
    requires IsName(s)
    ensures IsHex(Pad(s)) && Parse(Pad(s)) < TWO_64
    ensures MakeShortShardName(Parse(Pad(s))) == s
  {
    SixteenDigits();
    PadIsHex(s);
    HexParse(Pad(s));
    TrimPad(s);
  }
}
