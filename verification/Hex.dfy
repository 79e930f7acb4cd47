/** The hex encoding of hexenc/hex.go, with the parts of big.Int text it relies on. */
module Hex {
  import opened Arith
  import opened Wrappers

  datatype HexError = EmptyHex | InvalidHex

  // ----- big.Int in base 16 -----

  function Digit(d: nat): char
    requires d < 16
  {
    "0123456789abcdef"[d]
  }

  /** The digits of n without leading zeros. */
  function Digits(n: nat): (r: string)
    ensures r != []
  {
    if n < 16 then [Digit(n)] else Digits(n / 16) + [Digit(n % 16)]
  }

  function Text(n: int): string {
    if n < 0 then "-" + Digits(-n) else Digits(n)
  }

  /** Both cases are read. */
  function DigitValue(c: char): Option<nat> {
    if '0' <= c <= '9' then Some((c - '0') as nat)
    else if 'a' <= c <= 'f' then Some((c - 'a') as nat + 10)
    else if 'A' <= c <= 'F' then Some((c - 'A') as nat + 10)
    else None
  }

  function ParseDigits(s: string): Option<nat>
  {
    if s == [] then None
    else
      var d := DigitValue(s[|s| - 1]);
      if d.None? then None
      else if |s| == 1 then d
      else
        var high := ParseDigits(s[..|s| - 1]);
        if high.None? then None else Some(16 * high.value + d.value)
  }

  /** SetString: an optional sign and one or more digits, all of the text. */
  function ParseInt(s: string): Option<int> {
    if s != [] && s[0] == '-' then
      var n := ParseDigits(s[1..]);
      if n.None? then None else Some(0 - n.value)
    else if s != [] && s[0] == '+' then ParseDigits(s[1..])
    else ParseDigits(s)
  }

  // ----- hex.go -----

  /** None stands for a nil pointer. */
  function Encode(n: Option<int>): string {
    if n.None? || n.value == 0 then "0x0" else "0x" + Text(n.value)
  }

  function TrimPrefix(s: string): string {
    if |s| >= 2 && s[..2] == "0x" then s[2..] else s
  }

  function Decode(s: string): Result<int, HexError> {
    var stripped := TrimPrefix(s);
    if stripped == "" then Failure(EmptyHex)
    else if stripped == "0" then Success(0)
    else
      var n := ParseInt(stripped);
      if n.None? then Failure(InvalidHex) else Success(n.value)
  }

  lemma DigitReadsBack(d: nat)
    requires d < 16
    ensures DigitValue(Digit(d)) == Some(d)
    ensures Digit(d) != '-' && Digit(d) != '+' && Digit(d) != 'x'
  {
  }

  lemma ParseUnrolls(t: string, n: nat)
    requires |t| > 1
    ensures ParseDigits(t) == Some(n) <==>
      DigitValue(t[|t| - 1]) == Some(n % 16) && ParseDigits(t[..|t| - 1]) == Some(n / 16)
  {
    var d := DigitValue(t[|t| - 1]);
    assert d.Some? ==> d.value < 16;
  }

  lemma {:induction false} DigitsReadBack(n: nat)
    ensures ParseDigits(Digits(n)) == Some(n)
    ensures Digits(n)[0] != '-' && Digits(n)[0] != '+'
    ensures |Digits(n)| > 1 ==> Digits(n)[1] != 'x'
  {
    if n < 16 {
      DigitReadsBack(n);
    } else {
      DigitsReadBack(n / 16);
      DigitReadsBack(n % 16);
      ParseUnrolls(Digits(n / 16) + [Digit(n % 16)], n);
    }
  }

  lemma SignReadsBack(t: string, m: nat)
    requires t != [] && ParseDigits(t) == Some(m)
    ensures ParseInt("-" + t) == Some(0 - m)
    ensures t[0] != '-' && t[0] != '+' ==> ParseInt(t) == Some(m)
  {
    assert ("-" + t)[1..] == t;
  }

  lemma {:induction false} TextReadsBack(n: int)
    ensures ParseInt(Text(n)) == Some(n) && Text(n) != ""
  {
    var m: nat := if n < 0 then -n else n;
    DigitsReadBack(m);
    SignReadsBack(Digits(m), m);
  }

  lemma PrefixTrimmed(t: string)
    ensures TrimPrefix("0x" + t) == t
  {
    assert ("0x" + t)[2..] == t && ("0x" + t)[..2] == "0x";
  }

  lemma ParseZero()
    ensures ParseInt("0") == Some(0)
  {
    assert DigitValue('0') == Some(0);
    assert ParseDigits("0") == Some(0);
  }

  /** Decoding an encoding gives the number back, for every integer; nil reads back as zero. */
  lemma {:induction false} DecodeEncode(n: Option<int>)
    ensures Decode(Encode(n)) == Success(if n.None? then 0 else n.value)
  {
    if n.None? || n.value == 0 {
      PrefixTrimmed("0");
    } else {
      PrefixTrimmed(Text(n.value));
      TextReadsBack(n.value);
      ParseZero();
    }
  }

  // ----- what the text is, character by character -----

  /** t spells n > 0 in base 16: lower case, the highest digit first, none of them superfluous. */
  ghost predicate Spells(t: string, n: nat) {
    && t != [] && Power(16, |t| - 1) <= n < Power(16, |t|)
    && forall i: nat :: i < |t| ==> t[|t| - 1 - i] == "0123456789abcdef"[DigitAt(n, 16, i)]
  }

  /** The text of a number: "0x0" for zero and nil, else the sign after the prefix. */
  ghost predicate HexText(t: string, n: Option<int>) {
    if n.None? || n.value == 0 then t == "0x0"
    else if n.value > 0 then |t| > 2 && t[..2] == "0x" && Spells(t[2..], n.value)
    else |t| > 3 && t[..3] == "0x-" && Spells(t[3..], -n.value)
  }

  lemma SpellsOne(n: nat)
    requires 0 < n < 16
    ensures Spells(Digits(n), n)
  {
    assert Power(16, 0) == 1 && Power(16, 1) == 16;
    assert DigitAt(n, 16, 0) == n;
  }

  lemma SpellsMore(high: string, n: nat)
    requires n >= 16 && Spells(high, n / 16)
    ensures Spells(high + ["0123456789abcdef"[n % 16]], n)
  {
    var t := high + ["0123456789abcdef"[n % 16]];
    BelowPower(n, 16, |high| - 1);
    BelowPower(n, 16, |high|);
    forall i: nat | i < |t|
      ensures t[|t| - 1 - i] == "0123456789abcdef"[DigitAt(n, 16, i)]
    {
      if i == 0 {
        DigitAbove(n, 16, 0);
      } else {
        DigitAbove(n, 16, i - 1);
      }
    }
  }

  lemma {:induction false} DigitsSpell(n: nat)
    requires n > 0
    ensures Spells(Digits(n), n)
  {
    if n < 16 {
      SpellsOne(n);
    } else {
      DigitsSpell(n / 16);
      SpellsMore(Digits(n / 16), n);
    }
  }

  /** Encode writes lower-case base 16 without leading zeros. */
  lemma {:induction false} EncodeText(n: Option<int>)
    ensures HexText(Encode(n), n)
  {
    if n.Some? && n.value != 0 {
      var m: nat := if n.value < 0 then -n.value else n.value;
      DigitsSpell(m);
      assert ("0x" + Digits(m))[2..] == Digits(m);
      assert ("0x" + ("-" + Digits(m)))[3..] == Digits(m);
    }
  }

  /** A digit is read in either case. */
  lemma DigitValueMeans(c: char, d: nat)
    ensures DigitValue(c) == Some(d) <==> d < 16 && (c == "0123456789abcdef"[d] || c == "0123456789ABCDEF"[d])
  {
  }

  /** t is one or more base-16 digits, of either case, of the number n, the highest first. */
  ghost predicate Denotes(t: string, n: nat) {
    && t != [] && n < Power(16, |t|)
    && forall i: nat :: i < |t| ==> DigitValue(t[|t| - 1 - i]) == Some(DigitAt(n, 16, i))
  }

  lemma DenotesOne(t: string, n: nat)
    requires |t| == 1
    ensures Denotes(t, n) <==> DigitValue(t[0]) == Some(n)
  {
    assert Power(16, 0) == 1 && Power(16, 1) == 16;
    DigitAbove(n, 16, 0);
    if DigitValue(t[0]) == Some(n) {
      DigitValueMeans(t[0], n);
    }
    if Denotes(t, n) {
      assert DigitValue(t[|t| - 1 - 0]) == Some(DigitAt(n, 16, 0));
    }
  }

  lemma DenotesMore(t: string, n: nat)
    requires |t| > 1
    ensures Denotes(t, n) <==> DigitValue(t[|t| - 1]) == Some(n % 16) && Denotes(t[..|t| - 1], n / 16)
  {
    var high := t[..|t| - 1];
    BelowPower(n, 16, |high|);
    DigitAbove(n, 16, 0);
    if DigitValue(t[|t| - 1]) == Some(n % 16) && Denotes(high, n / 16) {
      forall i: nat | i < |t|
        ensures DigitValue(t[|t| - 1 - i]) == Some(DigitAt(n, 16, i))
      {
        if i > 0 {
          DigitAbove(n, 16, i - 1);
          assert high[|high| - 1 - (i - 1)] == t[|t| - 1 - i];
        }
      }
    }
    if Denotes(t, n) {
      assert DigitValue(t[|t| - 1 - 0]) == Some(DigitAt(n, 16, 0));
      forall i: nat | i < |high|
        ensures DigitValue(high[|high| - 1 - i]) == Some(DigitAt(n / 16, 16, i))
      {
        DigitAbove(n, 16, i);
        assert DigitValue(t[|t| - 1 - (i + 1)]) == Some(DigitAt(n, 16, i + 1));
      }
    }
  }

  /** Parsing succeeds exactly on digits, with the number they denote. */
  lemma {:induction false} ParseDigitsMeans(t: string, n: nat)
    ensures ParseDigits(t) == Some(n) <==> Denotes(t, n)
    decreases |t|
  {
    if |t| == 1 {
      DenotesOne(t, n);
    } else if |t| > 1 {
      DenotesMore(t, n);
      ParseUnrolls(t, n);
      ParseDigitsMeans(t[..|t| - 1], n / 16);
    }
  }

  /** After the prefix: an optional sign, then digits. */
  ghost predicate DenotesSigned(t: string, n: int) {
    if t != [] && t[0] == '-' then n <= 0 && Denotes(t[1..], -n)
    else if t != [] && t[0] == '+' then n >= 0 && Denotes(t[1..], n)
    else n >= 0 && Denotes(t, n)
  }

  /** What is read: the prefix is optional, nothing is no number, and all else must be a signed number. */
  lemma {:induction false} DecodeMeans(s: string, n: int)
    ensures var t := if |s| >= 2 && s[0] == '0' && s[1] == 'x' then s[2..] else s;
      && (Decode(s) == Success(n) <==> DenotesSigned(t, n))
      && (Decode(s) == Failure(EmptyHex) <==> t == "")
  {
    var t := TrimPrefix(s);
    assert t == if |s| >= 2 && s[0] == '0' && s[1] == 'x' then s[2..] else s;
    if t != "" {
      SignedMeans(t, n);
      ParseZero();
    }
  }

  lemma SignedMeans(t: string, n: int)
    requires t != ""
    ensures ParseInt(t) == Some(n) <==> DenotesSigned(t, n)
  {
    if t[0] == '-' {
      if n <= 0 {
        ParseDigitsMeans(t[1..], -n);
      }
    } else if t[0] == '+' {
      if n >= 0 {
        ParseDigitsMeans(t[1..], n);
      }
    } else if n >= 0 {
      ParseDigitsMeans(t, n);
    }
  }

  method EncodeSlice(ns: seq<Option<int>>) returns (out: seq<string>)
    ensures |out| == |ns|
    ensures forall i :: 0 <= i < |ns| ==> HexText(out[i], ns[i])
    ensures forall i :: 0 <= i < |ns| ==> Decode(out[i]) == Success(if ns[i].None? then 0 else ns[i].value)
  {
    out := seq(|ns|, _ => "");
    var i := 0;
    while i < |ns|
      invariant 0 <= i <= |ns| && |out| == |ns|
      invariant forall j :: 0 <= j < i ==> HexText(out[j], ns[j])
      invariant forall j :: 0 <= j < i ==> Decode(out[j]) == Success(if ns[j].None? then 0 else ns[j].value)
    {
      EncodeText(ns[i]);
      DecodeEncode(ns[i]);
      out := out[i := Encode(ns[i])];
      i := i + 1;
    }
  }
}
