/** The base32 and base64 test vectors of RFC 4648, section 10. */
module RandomVectors {
  import opened Positional
  import opened RandomText
  import opened RandomReach

  function Letter32(d: nat): char
    requires d < 32
  {
    if d < 26 then ('A' as int + d) as char else ('2' as int + (d - 26)) as char
  }

  function Letter64(d: nat): char
    requires d < 64
  {
    if d < 26 then ('A' as int + d) as char
    else if d < 52 then ('a' as int + (d - 26)) as char
    else if d < 62 then ('0' as int + (d - 52)) as char
    else if d == 62 then '+' else '/'
  }

  /** Tables 1 and 3. */
  lemma Tables(d: nat)
    ensures d < 32 ==> CharOf(BASE32, d) == Letter32(d)
    ensures d < 64 ==> CharOf(BASE64, d) == Letter64(d)
  {
    hide UPPER, LOWER;
    AlphabetParts();
  }

  lemma Group(s: Scheme, bytes: seq<nat>, n: nat, d: seq<nat>, text: string)
    requires Known(s) && |bytes| <= s.groupBytes && Digits(bytes, 8)
    requires Shl(Value(bytes, 8), PadBits(s, |bytes|)) == n
    requires DigitsOf(n, s.bits, CharsFor(s, |bytes|)) == d
    requires |text| == |d|
    requires forall i :: 0 <= i < |d| ==> text[i] == if s == BASE32 then Letter32(d[i]) else Letter64(d[i])
    ensures EncodeGroup(s, bytes) == text + Padding(s.groupChars - |d|)
  {
    hide CharOf, Value, Shl, DigitsOf, Letter32, Letter64;
    forall i | 0 <= i < |d|
      ensures Letters(s, d)[i] == text[i]
    {
      Tables(d[i]);
    }
    assert Letters(s, d) == text;
  }

  lemma ByteAdded(bytes: seq<nat>, x: nat)
    ensures Value(bytes + [x], 8) == 256 * Value(bytes, 8) + x
  {
    assert (bytes + [x])[..|bytes|] == bytes;
  }

  lemma DigitAdded(n: nat, bits: nat, k: nat)
    requires Radix(bits) && k > 0
    ensures DigitsOf(n, bits, k) == DigitsOf(n / RadixOf(bits), bits, k - 1) + [n % RadixOf(bits)]
  {
  }

  lemma FValue()
    ensures Value([0x66], 8) == 0x66
  {
    ByteAdded([], 0x66);
  }

  lemma FoValue()
    ensures Value([0x66, 0x6f], 8) == 0x666f
  {
    ByteAdded([], 0x66);
    ByteAdded([0x66], 0x6f);
    assert [0x66] + [0x6f] == [0x66, 0x6f];
  }

  lemma FooValue()
    ensures Value([0x66, 0x6f, 0x6f], 8) == 0x666f6f
  {
    ByteAdded([], 0x66);
    ByteAdded([0x66], 0x6f);
    ByteAdded([0x66, 0x6f], 0x6f);
    assert [0x66] + [0x6f] == [0x66, 0x6f];
    assert [0x66, 0x6f] + [0x6f] == [0x66, 0x6f, 0x6f];
  }

  lemma FoobValue()
    ensures Value([0x66, 0x6f, 0x6f, 0x62], 8) == 0x666f6f62
  {
    ByteAdded([], 0x66);
    ByteAdded([0x66], 0x6f);
    ByteAdded([0x66, 0x6f], 0x6f);
    ByteAdded([0x66, 0x6f, 0x6f], 0x62);
    assert [0x66] + [0x6f] == [0x66, 0x6f];
    assert [0x66, 0x6f] + [0x6f] == [0x66, 0x6f, 0x6f];
    assert [0x66, 0x6f, 0x6f] + [0x62] == [0x66, 0x6f, 0x6f, 0x62];
  }

  lemma FoobaValue()
    ensures Value([0x66, 0x6f, 0x6f, 0x62, 0x61], 8) == 0x666f6f6261
  {
    ByteAdded([], 0x66);
    ByteAdded([0x66], 0x6f);
    ByteAdded([0x66, 0x6f], 0x6f);
    ByteAdded([0x66, 0x6f, 0x6f], 0x62);
    ByteAdded([0x66, 0x6f, 0x6f, 0x62], 0x61);
    assert [0x66] + [0x6f] == [0x66, 0x6f];
    assert [0x66, 0x6f] + [0x6f] == [0x66, 0x6f, 0x6f];
    assert [0x66, 0x6f, 0x6f] + [0x62] == [0x66, 0x6f, 0x6f, 0x62];
    assert [0x66, 0x6f, 0x6f, 0x62] + [0x61] == [0x66, 0x6f, 0x6f, 0x62, 0x61];
  }

  lemma BarValue()
    ensures Value([0x62, 0x61, 0x72], 8) == 0x626172
  {
    ByteAdded([], 0x62);
    ByteAdded([0x62], 0x61);
    ByteAdded([0x62, 0x61], 0x72);
    assert [0x62] + [0x61] == [0x62, 0x61];
    assert [0x62, 0x61] + [0x72] == [0x62, 0x61, 0x72];
  }

  lemma RValue()
    ensures Value([0x72], 8) == 0x72
  {
    ByteAdded([], 0x72);
  }

  lemma Base64FDigits()
    ensures Shl(0x66, 4) == 0x660 && DigitsOf(0x660, 6, 2) == [25, 32]
  {
  }

  lemma Base64F()
    ensures EncodeGroup(BASE64, [0x66]) == "Zg=="
  {
    hide Value, Shl, DigitsOf;
    FValue();
    Base64FDigits();
    Group(BASE64, [0x66], 0x660, [25, 32], "Zg");
    assert Padding(2) == "==";
  }

  lemma Base64FoDigits()
    ensures Shl(0x666f, 2) == 0x199bc && DigitsOf(0x199bc, 6, 3) == [25, 38, 60]
  {
  }

  lemma Base64Fo()
    ensures EncodeGroup(BASE64, [0x66, 0x6f]) == "Zm8="
  {
    hide Value, Shl, DigitsOf;
    FoValue();
    Base64FoDigits();
    Group(BASE64, [0x66, 0x6f], 0x199bc, [25, 38, 60], "Zm8");
    assert Padding(1) == "=";
  }

  lemma Base64FooDigits()
    ensures Shl(0x666f6f, 0) == 0x666f6f && DigitsOf(0x666f6f, 6, 4) == [25, 38, 61, 47]
  {
  }

  lemma Base64Foo()
    ensures EncodeGroup(BASE64, [0x66, 0x6f, 0x6f]) == "Zm9v"
  {
    hide Value, Shl, DigitsOf;
    FooValue();
    Base64FooDigits();
    Group(BASE64, [0x66, 0x6f, 0x6f], 0x666f6f, [25, 38, 61, 47], "Zm9v");
    assert Padding(0) == "";
  }

  lemma Base64BarDigits()
    ensures Shl(0x626172, 0) == 0x626172 && DigitsOf(0x626172, 6, 4) == [24, 38, 5, 50]
  {
  }

  lemma Base64Bar()
    ensures EncodeGroup(BASE64, [0x62, 0x61, 0x72]) == "YmFy"
  {
    hide Value, Shl, DigitsOf;
    BarValue();
    Base64BarDigits();
    Group(BASE64, [0x62, 0x61, 0x72], 0x626172, [24, 38, 5, 50], "YmFy");
    assert Padding(0) == "";
  }

  lemma Base32FDigits()
    ensures Shl(0x66, 2) == 0x198 && DigitsOf(0x198, 5, 2) == [12, 24]
  {
  }

  lemma Base32F()
    ensures EncodeGroup(BASE32, [0x66]) == "MY======"
  {
    hide Value, Shl, DigitsOf;
    FValue();
    Base32FDigits();
    Group(BASE32, [0x66], 0x198, [12, 24], "MY");
    assert Padding(6) == "======";
  }

  lemma Base32FoDigits()
    ensures Shl(0x666f, 4) == 0x666f0 && DigitsOf(0x666f0, 5, 4) == [12, 25, 23, 16]
  {
  }

  lemma Base32Fo()
    ensures EncodeGroup(BASE32, [0x66, 0x6f]) == "MZXQ===="
  {
    hide Value, Shl, DigitsOf;
    FoValue();
    Base32FoDigits();
    Group(BASE32, [0x66, 0x6f], 0x666f0, [12, 25, 23, 16], "MZXQ");
    assert Padding(4) == "====";
  }

  lemma Base32FooFirstDigits()
    ensures DigitsOf(0x666f6, 5, 4) == [12, 25, 23, 22]
  {
  }

  lemma Base32FooDigits()
    ensures Shl(0x666f6f, 1) == 0xccdede && DigitsOf(0xccdede, 5, 5) == [12, 25, 23, 22, 30]
  {
    hide DigitsOf;
    Base32FooFirstDigits();
    DigitAdded(0xccdede, 5, 5);
  }

  lemma Base32Foo()
    ensures EncodeGroup(BASE32, [0x66, 0x6f, 0x6f]) == "MZXW6==="
  {
    hide Value, Shl, DigitsOf;
    FooValue();
    Base32FooDigits();
    Group(BASE32, [0x66, 0x6f, 0x6f], 0xccdede, [12, 25, 23, 22, 30], "MZXW6");
    assert Padding(3) == "===";
  }

  lemma Base32FoobFirstDigits()
    ensures DigitsOf(0x666f6, 5, 4) == [12, 25, 23, 22]
  {
  }

  lemma Base32FoobDigits()
    ensures Shl(0x666f6f62, 3) == 0x3337b7b10 && DigitsOf(0x3337b7b10, 5, 7) == [12, 25, 23, 22, 30, 24, 16]
  {
    hide DigitsOf;
    Base32FoobFirstDigits();
    DigitAdded(0x3337b7b10, 5, 7);
    DigitAdded(0x199bdbd8, 5, 6);
    DigitAdded(0xccdede, 5, 5);
  }

  lemma Base32Foob()
    ensures EncodeGroup(BASE32, [0x66, 0x6f, 0x6f, 0x62]) == "MZXW6YQ="
  {
    hide Value, Shl, DigitsOf;
    FoobValue();
    Base32FoobDigits();
    Group(BASE32, [0x66, 0x6f, 0x6f, 0x62], 0x3337b7b10, [12, 25, 23, 22, 30, 24, 16], "MZXW6YQ");
    assert Padding(1) == "=";
  }

  lemma Base32FoobaFirstDigits()
    ensures DigitsOf(0x666f6, 5, 4) == [12, 25, 23, 22]
  {
  }

  lemma Base32FoobaDigits()
    ensures Shl(0x666f6f6261, 0) == 0x666f6f6261 && DigitsOf(0x666f6f6261, 5, 8) == [12, 25, 23, 22, 30, 24, 19, 1]
  {
    hide DigitsOf;
    Base32FoobaFirstDigits();
    DigitAdded(0x666f6f6261, 5, 8);
    DigitAdded(0x3337b7b13, 5, 7);
    DigitAdded(0x199bdbd8, 5, 6);
    DigitAdded(0xccdede, 5, 5);
  }

  lemma Base32Fooba()
    ensures EncodeGroup(BASE32, [0x66, 0x6f, 0x6f, 0x62, 0x61]) == "MZXW6YTB"
  {
    hide Value, Shl, DigitsOf;
    FoobaValue();
    Base32FoobaDigits();
    Group(BASE32, [0x66, 0x6f, 0x6f, 0x62, 0x61], 0x666f6f6261, [12, 25, 23, 22, 30, 24, 19, 1], "MZXW6YTB");
    assert Padding(0) == "";
  }

  lemma Base32RDigits()
    ensures Shl(0x72, 2) == 0x1c8 && DigitsOf(0x1c8, 5, 2) == [14, 8]
  {
  }

  lemma Base32R()
    ensures EncodeGroup(BASE32, [0x72]) == "OI======"
  {
    hide Value, Shl, DigitsOf;
    RValue();
    Base32RDigits();
    Group(BASE32, [0x72], 0x1c8, [14, 8], "OI");
    assert Padding(6) == "======";
  }

  /** "foobar", in whole groups and in an incomplete one. */
  lemma Foobar()
    ensures Encode(BASE64, [0x66, 0x6f, 0x6f, 0x62, 0x61, 0x72]) == "Zm9vYmFy"
    ensures Encode(BASE32, [0x66, 0x6f, 0x6f, 0x62, 0x61, 0x72]) == "MZXW6YTBOI======"
  {
    hide EncodeGroup;
    var foobar: seq<nat> := [0x66, 0x6f, 0x6f, 0x62, 0x61, 0x72];
    assert foobar[..3] == [0x66, 0x6f, 0x6f] && foobar[3..] == [0x62, 0x61, 0x72];
    assert foobar[..5] == [0x66, 0x6f, 0x6f, 0x62, 0x61] && foobar[5..] == [0x72];
    Base64Foo();
    Base64Bar();
    Base32Fooba();
    Base32R();
  }
}
