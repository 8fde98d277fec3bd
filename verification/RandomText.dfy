/** Random strings in base16, base32 and base64, with RFC 4648 alphabets and padding. */
module RandomText {
  import opened Bytes
  import opened Common
  import opened Positional

  const INT_MAX: nat := 0x7fff_ffff
  const SIZE_MAX: nat := 0xffff_ffff_ffff_ffff

  /** `tailShift` is how far the draw moves between the digits of an incomplete last group. */
  datatype Scheme = Scheme(bits: nat, groupBytes: nat, groupChars: nat, tailShift: nat, alphabet: string)

  const UPPER := "ABCDEFGHIJKLMNOPQRSTUVWXYZ"
  const LOWER := "abcdefghijklmnopqrstuvwxyz"

  const BASE32 := Scheme(5, 5, 8, 5, UPPER + "234567")
  const BASE64 := Scheme(6, 3, 4, 3, UPPER + LOWER + "0123456789" + "+/")

  predicate Known(s: Scheme) {
    s == BASE32 || s == BASE64
  }

  lemma AlphabetSizes()
    ensures |BASE32.alphabet| == 32 && |BASE64.alphabet| == 64
  {
  }

  function CharOf(s: Scheme, digit: nat): char
    requires Known(s) && digit < RadixOf(s.bits)
  {
    AlphabetSizes();
    s.alphabet[digit]
  }

  function Letters(s: Scheme, digits: seq<nat>): (t: string)
    requires Known(s) && Digits(digits, s.bits)
    ensures |t| == |digits|
  {
    seq(|digits|, i requires 0 <= i < |digits| => CharOf(s, digits[i]))
  }

  function Padding(k: nat): (t: string)
    ensures |t| == k
  {
    seq(k, _ => '=')
  }

  /** Digits needed for some bytes, and the zero bits that fill up the last one. */
  function CharsFor(s: Scheme, bytes: nat): nat
    requires Known(s)
  {
    (8 * bytes + s.bits - 1) / s.bits
  }

  function PadBits(s: Scheme, bytes: nat): nat
    requires Known(s)
  {
    s.bits * CharsFor(s, bytes) - 8 * bytes
  }

  // ----- the standard encoding

  function EncodeGroup(s: Scheme, bytes: seq<nat>): (t: string)
    requires Known(s) && |bytes| <= s.groupBytes && Digits(bytes, 8)
    ensures |t| == s.groupChars
  {
    var q := CharsFor(s, |bytes|);
    Letters(s, DigitsOf(Shl(Value(bytes, 8), PadBits(s, |bytes|)), s.bits, q)) + Padding(s.groupChars - q)
  }

  /** RFC 4648, sections 4 and 6. */
  function Encode(s: Scheme, bytes: seq<nat>): string
    requires Known(s) && Digits(bytes, 8)
  {
    if bytes == [] then ""
    else if |bytes| <= s.groupBytes then EncodeGroup(s, bytes)
    else EncodeGroup(s, bytes[..s.groupBytes]) + Encode(s, bytes[s.groupBytes..])
  }

  // ----- the random text

  /** The low digits of a draw that moves down by `shift` bits between them. */
  function LowDigits(v: nat, bits: nat, shift: nat, k: nat): (d: seq<nat>)
    requires Radix(bits)
    ensures |d| == k && Digits(d, bits)
    decreases k
  {
    if k == 0 then [] else [v % RadixOf(bits)] + LowDigits(Shr(v, shift), bits, shift, k - 1)
  }

  function Moved(v: nat, shift: nat, k: nat): nat
    decreases k
  {
    if k == 0 then v else Moved(Shr(v, shift), shift, k - 1)
  }

  /** A number with its low bits masked out. */
  function Cleared(x: nat, low: nat): (c: nat)
    ensures c <= x && LowZero(c, low)
  {
    ClearedIsSmaller(x, low);
    ShiftedIsLowZero(Shr(x, low), low);
    Shl(Shr(x, low), low)
  }

  /** The last digit of an incomplete group, its padding bits cleared. */
  function LastDigit(s: Scheme, bytes: nat, v: nat): (d: nat)
    requires Known(s) && 0 < bytes <= s.groupBytes
    ensures d < RadixOf(s.bits) && LowZero(d, PadBits(s, bytes))
  {
    Cleared(v % RadixOf(s.bits), PadBits(s, bytes))
  }

  lemma DigitCount(s: Scheme, bytes: nat)
    requires Known(s) && 0 < bytes <= s.groupBytes
    ensures CharsFor(s, bytes) == if bytes == s.groupBytes then s.groupChars else 8 * bytes / s.bits + 1
  {
  }

  /** The digits of one group of random bytes, from one draw. */
  function GroupDigits(s: Scheme, bytes: nat, v: nat): (d: seq<nat>)
    requires Known(s) && 0 < bytes <= s.groupBytes
    ensures |d| == CharsFor(s, bytes) && Digits(d, s.bits)
  {
    DigitCount(s, bytes);
    if bytes == s.groupBytes then LowDigits(v, s.bits, s.bits, s.groupChars)
    else
      var k := 8 * bytes / s.bits;
      LowDigits(v, s.bits, s.tailShift, k) + [LastDigit(s, bytes, Moved(v, s.tailShift, k))]
  }

  function GroupText(s: Scheme, bytes: nat, v: nat): (t: string)
    requires Known(s) && 0 < bytes <= s.groupBytes
    ensures |t| == s.groupChars
  {
    var d := GroupDigits(s, bytes, v);
    Letters(s, d) + Padding(s.groupChars - |d|)
  }

  function Groups(s: Scheme, count: nat): nat
    requires Known(s)
  {
    if s.bits == 5 then (count + 4) / 5 else (count + 2) / 3
  }

  /** The length of the whole text. */
  function TotalChars(s: Scheme, count: nat): nat
    requires Known(s)
  {
    if s.bits == 5 then Groups(s, count) * 8 else Groups(s, count) * 4
  }

  lemma TotalSteps(s: Scheme, count: nat)
    requires Known(s)
    ensures count == 0 ==> Groups(s, count) == 0
    ensures 0 < count <= s.groupBytes ==> Groups(s, count) == 1 && TotalChars(s, count) == s.groupChars
    ensures count > s.groupBytes ==>
              && Groups(s, count) == Groups(s, count - s.groupBytes) + 1
              && TotalChars(s, count) == TotalChars(s, count - s.groupBytes) + s.groupChars
  {
  }

  /** The whole text for `count` random bytes, one draw a group. */
  function Text(s: Scheme, count: nat, draws: seq<nat>): (t: string)
    requires Known(s) && |draws| >= Groups(s, count)
    ensures |t| == TotalChars(s, count)
  {
    TotalSteps(s, count);
    if count == 0 then ""
    else if count <= s.groupBytes then GroupText(s, count, draws[0])
    else GroupText(s, s.groupBytes, draws[0]) + Text(s, count - s.groupBytes, draws[1..])
  }

  // ----- the text is a canonical encoding

  lemma PadBitsAreZero(s: Scheme, bytes: nat, v: nat)
    requires Known(s) && 0 < bytes <= s.groupBytes
    ensures LowZero(Value(GroupDigits(s, bytes, v), s.bits), PadBits(s, bytes))
  {
    hide LowDigits, Moved, Cleared, TwoTo, RadixOf;
    var d := GroupDigits(s, bytes, v);
    if bytes < s.groupBytes {
      var n := |d| - 1;
      RadixIsPower(s.bits);
      LowZeroSum(Value(d[..n], s.bits), s.bits, d[n], PadBits(s, bytes));
    }
  }

  lemma GroupIsCanonical(s: Scheme, bytes: nat, v: nat) returns (b: seq<nat>)
    requires Known(s) && 0 < bytes <= s.groupBytes
    ensures |b| == bytes && Digits(b, 8) && EncodeGroup(s, b) == GroupText(s, bytes, v)
  {
    var d, pad := GroupDigits(s, bytes, v), PadBits(s, bytes);
    PadBitsAreZero(s, bytes, v);
    Regrouped(d, s.bits, bytes, pad);
    b := DigitsOf(Shr(Value(d, s.bits), pad), 8, bytes);
  }

  /** For every count and every draws, the text is the standard encoding of exactly count bytes. */
  lemma {:induction false} TextIsCanonical(s: Scheme, count: nat, draws: seq<nat>) returns (b: seq<nat>)
    requires Known(s) && |draws| >= Groups(s, count)
    ensures |b| == count && Digits(b, 8) && Encode(s, b) == Text(s, count, draws)
    decreases count
  {
    hide EncodeGroup, GroupText, Groups;
    TotalSteps(s, count);
    if count == 0 {
      b := [];
    } else if count <= s.groupBytes {
      b := GroupIsCanonical(s, count, draws[0]);
    } else {
      var first := GroupIsCanonical(s, s.groupBytes, draws[0]);
      var rest := TextIsCanonical(s, count - s.groupBytes, draws[1..]);
      b := first + rest;
      assert b[..s.groupBytes] == first && b[s.groupBytes..] == rest;
    }
  }

  // ----- writing the text

  /** The characters of a run of digits: each is looked up, then the draw moves down. */
  method WriteDigits(s: Scheme, v: nat, shift: nat, k: nat) returns (b: string, rest: nat)
    requires Known(s)
    ensures b == Letters(s, LowDigits(v, s.bits, shift, k)) && rest == Moved(v, shift, k)
  {
    NoLetters(s, v, shift);
    hide Shr, Letters, LowDigits, Moved, RadixOf, CharOf;
    b, rest := "", v;
    var i := 0;
    while i < k
      invariant i <= k
      invariant Letters(s, LowDigits(v, s.bits, shift, k)) == b + Letters(s, LowDigits(rest, s.bits, shift, k - i))
      invariant Moved(v, shift, k) == Moved(rest, shift, k - i)
    {
      FirstLetter(s, rest, shift, k - i);
      b := b + [CharOf(s, rest % RadixOf(s.bits))];
      rest := Shr(rest, shift);
      i := i + 1;
    }
    NoLetters(s, rest, shift);
  }

  lemma NoLetters(s: Scheme, v: nat, shift: nat)
    requires Known(s)
    ensures Letters(s, LowDigits(v, s.bits, shift, 0)) == "" && Moved(v, shift, 0) == v
  {
  }

  lemma FirstLetter(s: Scheme, v: nat, shift: nat, k: nat)
    requires Known(s) && k > 0
    ensures Letters(s, LowDigits(v, s.bits, shift, k))
         == [CharOf(s, v % RadixOf(s.bits))] + Letters(s, LowDigits(Shr(v, shift), s.bits, shift, k - 1))
    ensures Moved(v, shift, k) == Moved(Shr(v, shift), shift, k - 1)
  {
    hide Shr, CharOf;
  }

  /** The local array b of one group, full or last. */
  method WriteGroup(s: Scheme, bytes: nat, v: nat) returns (b: string)
    requires Known(s) && 0 < bytes <= s.groupBytes
    ensures b == GroupText(s, bytes, v)
  {
    hide LowDigits, Moved, Cleared, CharOf;
    var rest;
    if bytes == s.groupBytes {
      b, rest := WriteDigits(s, v, s.bits, s.groupChars);
    } else {
      var k := 8 * bytes / s.bits;
      b, rest := WriteDigits(s, v, s.tailShift, k);
      b := b + [CharOf(s, Cleared(rest % RadixOf(s.bits), PadBits(s, bytes)))];
      while |b| < s.groupChars
        invariant CharsFor(s, bytes) <= |b| <= s.groupChars
        invariant b == Letters(s, GroupDigits(s, bytes, v)) + Padding(|b| - CharsFor(s, bytes))
      {
        b := b + ['='];
      }
    }
  }

  /** What a buffer of a given length receives: as much of the text as fits, then a NUL. */
  ghost predicate Received(buffer: seq<char>, before: seq<char>, len: nat, text: string)
    requires len <= |before|
  {
    && |buffer| == |before|
    && (len == 0 ==> buffer == before)
    && (len > 0 ==>
          var k := if |text| < len then |text| else len - 1;
          buffer == text[..k] + ['\0'] + before[k + 1..])
  }

  /** The NUL behind the characters that fit. */
  lemma Terminated(written: seq<char>, before: seq<char>, len: nat, text: string, room: nat)
    requires 0 < len <= |before| && room == if |text| < len then |text| else len - 1
    requires written == text[..room] + before[room..]
    ensures Received(written[room := '\0'], before, len, text)
  {
  }

  lemma NothingReceived(before: seq<char>, text: string)
    ensures Received(before, before, 0, text)
  {
  }

  /** The text still to be written after g groups. */
  lemma NextGroup(s: Scheme, count: nat, draws: seq<nat>, bytes: nat)
    requires Known(s) && 0 < count && |draws| >= Groups(s, count)
    requires bytes == if count < s.groupBytes then count else s.groupBytes
    ensures Groups(s, count) >= 1 && Groups(s, count - bytes) == Groups(s, count) - 1
    ensures Text(s, count, draws) == GroupText(s, bytes, draws[0]) + Text(s, count - bytes, draws[1..])
  {
    hide GroupText, Groups;
    TotalSteps(s, count);
    TotalSteps(s, count - bytes);
    if count == bytes {
      assert Text(s, 0, draws[1..]) == "";
    }
  }

  /** The state of the writing loop: p characters written, ps still allowed, c bytes still to go. */
  ghost predicate Progress(s: Scheme, buffer: seq<char>, before: seq<char>, text: string, k: nat,
                           p: nat, ps: nat, c: nat, rest: seq<nat>)
    requires Known(s)
  {
    && k <= |text| && k < |before| && p + ps == k
    && buffer == text[..p] + before[p..] && |buffer| == |before|
    && |rest| >= Groups(s, c)
    && (ps > 0 ==> text[p..] == Text(s, c, rest))
  }

  lemma ProgressStep(s: Scheme, buffer: seq<char>, before: seq<char>, text: string, k: nat,
                     p: nat, ps: nat, c: nat, rest: seq<nat>, bytes: nat, bs: nat)
    requires Known(s) && Progress(s, buffer, before, text, k, p, ps, c, rest) && ps > 0 && c > 0
    requires bytes == if c < s.groupBytes then c else s.groupBytes
    requires bs == if ps < s.groupChars then ps else s.groupChars
    ensures |rest| >= 1
    ensures var buffer' := buffer[..p] + GroupText(s, bytes, rest[0])[..bs] + buffer[p + bs..];
            Progress(s, buffer', before, text, k, p + bs, ps - bs, c - bytes, rest[1..])
  {
    hide GroupText, Groups, Text;
    NextGroup(s, c, rest, bytes);
    var g, t := GroupText(s, bytes, rest[0]), Text(s, c - bytes, rest[1..]);
    assert text[p..] == g + t;
    TextPiece(text, p, g, t, bs);
  }

  lemma TextPiece(text: string, p: nat, g: string, t: string, bs: nat)
    requires p <= |text| && text[p..] == g + t && bs <= |g|
    ensures p + bs <= |text| && text[..p] + g[..bs] == text[..p + bs]
    ensures bs == |g| ==> text[p + bs..] == t
  {
    assert text == text[..p] + (g + t);
  }

  /** futils_random_base32 and futils_random_base64, with one draw of the pool for each group. */
  method RandomBase(s: Scheme, buffer: array<char>, len: nat, count: nat, draws: seq<nat>) returns (ret: int)
    requires Known(s) && len <= buffer.Length && count <= SIZE_MAX
    requires |draws| >= Groups(s, count)
    modifies buffer
    ensures var total := if s == BASE32 then (count + 4) / 5 * 8 else (count + 2) / 3 * 4;
            total == TotalChars(s, count) && ret == if total <= 0x7fff_ffff then total else -EINVAL
    ensures ret < 0 ==> buffer[..] == old(buffer[..])
    ensures ret >= 0 ==> Received(buffer[..], old(buffer[..]), len, Text(s, count, draws))
  {
    assert TotalChars(s, count) == if s == BASE32 then (count + 4) / 5 * 8 else (count + 2) / 3 * 4;
    hide Text, Groups, TotalChars;
    var total := ReturnValue(s, count);
    if total < 0 || len == 0 {
      return total;
    }
    var ps: nat := if total > len - 1 then len - 1 else total;
    ghost var before := buffer[..];
    var p := WriteText(s, buffer, ps, count, draws);
    Terminated(buffer[..], before, len, Text(s, count, draws), p);
    buffer[p] := '\0';
    return total;
  }

  /** The loop over whole groups and the incomplete one, for at most `room` characters. */
  method WriteText(s: Scheme, buffer: array<char>, room: nat, count: nat, draws: seq<nat>) returns (p: nat)
    requires Known(s) && |draws| >= Groups(s, count)
    requires room <= TotalChars(s, count) && room < buffer.Length
    modifies buffer
    ensures p == room && buffer[..] == Text(s, count, draws)[..room] + old(buffer[room..])
  {
    ghost var before, text := buffer[..], Text(s, count, draws);
    hide Text, Groups, GroupText;
    p := 0;
    var ps: nat, c: nat, g: nat := room, count, 0;
    ProgressStarts(s, before, room, count, draws);
    assert draws[0..] == draws;
    while c >= s.groupBytes && ps > 0
      invariant g <= |draws|
      invariant Progress(s, buffer[..], before, text, room, p, ps, c, draws[g..])
      decreases c
    {
      p, ps, c, g := WriteNext(s, buffer, draws, p, ps, c, g, before, text, room);
    }
    if c > 0 && ps > 0 {
      p, ps, c, g := WriteNext(s, buffer, draws, p, ps, c, g, before, text, room);
    }
    NothingLeft(s, text, p, ps, c, draws[g..]);
  }

  lemma ProgressStarts(s: Scheme, before: seq<char>, room: nat, count: nat, draws: seq<nat>)
    requires Known(s) && |draws| >= Groups(s, count)
    requires room <= TotalChars(s, count) && room < |before|
    ensures Progress(s, before, before, Text(s, count, draws), room, 0, room, count, draws)
  {
    hide GroupText, Groups;
    var text := Text(s, count, draws);
    hide Text;
    assert text[0..] == text && text[..0] + before[0..] == before;
  }

  method ReturnValue(s: Scheme, count: nat) returns (ret: int)
    requires Known(s) && count <= SIZE_MAX
    ensures ret == if TotalChars(s, count) <= INT_MAX then TotalChars(s, count) else -EINVAL
  {
    if count > SIZE_MAX - (s.groupBytes - 1) {
      return -EINVAL;
    }
    if Groups(s, count) > (INT_MAX + s.groupChars - 1) / s.groupChars {
      return -EINVAL;
    }
    if TotalChars(s, count) > INT_MAX {
      return -EINVAL;
    }
    return TotalChars(s, count);
  }

  method WriteNext(s: Scheme, buffer: array<char>, draws: seq<nat>, p: nat, ps: nat, c: nat, g: nat,
                   ghost before: seq<char>, ghost text: string, ghost k: nat)
    returns (p': nat, ps': nat, c': nat, g': nat)
    requires Known(s) && ps > 0 && c > 0 && g <= |draws|
    requires Progress(s, buffer[..], before, text, k, p, ps, c, draws[g..])
    modifies buffer
    ensures g' <= |draws| && Progress(s, buffer[..], before, text, k, p', ps', c', draws[g'..])
    ensures c' == if c < s.groupBytes then 0 else c - s.groupBytes
  {
    hide Text, Groups, GroupText;
    var bytes := if c < s.groupBytes then c else s.groupBytes;
    var bs := if ps < s.groupChars then ps else s.groupChars;
    ProgressStep(s, buffer[..], before, text, k, p, ps, c, draws[g..], bytes, bs);
    assert draws[g..][0] == draws[g] && draws[g..][1..] == draws[g + 1..];
    var b := WriteGroup(s, bytes, draws[g]);
    Memcpy(buffer, p, b[..bs]);
    p', ps', c', g' := p + bs, ps - bs, c - bytes, g + 1;
  }

  lemma NothingLeft(s: Scheme, text: string, p: nat, ps: nat, c: nat, rest: seq<nat>)
    requires Known(s) && |rest| >= Groups(s, c) && p + ps <= |text|
    requires c == 0 || ps == 0
    requires ps > 0 ==> text[p..] == Text(s, c, rest)
    ensures ps == 0
  {
    assert c == 0 ==> |Text(s, c, rest)| == 0;
  }

  // ----- base16

  function HexChar(d: nat): char
    requires d < 16
  {
    "0123456789abcdef"[d]
  }

  /** The low hexadecimal digits of a draw, lowest first. */
  function HexDigits(v: nat, k: nat): (t: string)
    ensures |t| == k
    decreases k
  {
    if k == 0 then "" else [HexChar(v % 16)] + HexDigits(v / 16, k - 1)
  }

  /** n characters, sixteen a draw. */
  function HexText(n: nat, draws: seq<nat>): (t: string)
    requires 16 * |draws| >= n
    ensures |t| == n
  {
    if n == 0 then ""
    else if n <= 16 then HexDigits(draws[0], n)
    else HexDigits(draws[0], 16) + HexText(n - 16, draws[1..])
  }

  lemma {:induction false} HexDigitsPrefix(v: nat, k: nat, n: nat)
    requires k <= n
    ensures HexDigits(v, k) == HexDigits(v, n)[..k]
    decreases k
  {
    if k > 0 {
      HexDigitsPrefix(v / 16, k - 1, n - 1);
    }
  }

  /** A shorter text is a prefix of a longer one from the same draws. */
  lemma {:induction false} HexTextPrefix(k: nat, n: nat, draws: seq<nat>)
    requires k <= n <= 16 * |draws|
    ensures HexText(k, draws) == HexText(n, draws)[..k]
    decreases n
  {
    hide HexDigits;
    if n > 16 {
      if k > 16 {
        HexTextPrefix(k - 16, n - 16, draws[1..]);
      } else if k > 0 {
        HexDigitsPrefix(draws[0], k, 16);
      }
    } else if k > 0 {
      HexDigitsPrefix(draws[0], k, n);
    }
  }

  lemma FirstHex(v: nat, k: nat)
    requires k > 0
    ensures HexDigits(v, k) == [HexChar(v % 16)] + HexDigits(v / 16, k - 1)
  {
  }

  method WriteHex(buffer: array<char>, at: nat, v: nat, k: nat)
    requires at + k <= buffer.Length
    modifies buffer
    ensures buffer[..] == old(buffer[..at]) + HexDigits(v, k) + old(buffer[at + k..])
  {
    hide HexDigits, HexChar;
    var rest, t := v, "";
    for i := 0 to k
      modifies {}
      invariant |t| == i && t + HexDigits(rest, k - i) == HexDigits(v, k)
    {
      FirstHex(rest, k - i);
      t := t + [HexChar(rest % 16)];
      rest := rest / 16;
    }
    assert t == HexDigits(v, k);
    Memcpy(buffer, at, t);
  }

  /** futils_random_base16: a full buffer's worth of digits, then a NUL. */
  method RandomBase16(buffer: array<char>, len: nat, count: nat, draws: seq<nat>) returns (ret: int)
    requires len <= buffer.Length && count <= SIZE_MAX && 16 * |draws| >= 2 * count
    modifies buffer
    ensures ret == if 2 * count <= INT_MAX then 2 * count else -EINVAL
    ensures ret < 0 ==> buffer[..] == old(buffer[..])
    ensures ret >= 0 ==> Received(buffer[..], old(buffer[..]), len, HexText(2 * count, draws))
  {
    hide HexText, Received;
    if count > (INT_MAX + 1) / 2 || count * 2 > INT_MAX {
      return -EINVAL;
    }
    if len == 0 {
      NothingReceived(buffer[..], HexText(2 * count, draws));
      return count * 2;
    }
    var room := if count * 2 > len - 1 then len - 1 else count * 2;
    ghost var before := buffer[..];
    WriteHexText(buffer, room, draws);
    HexTextPrefix(room, 2 * count, draws);
    Terminated(buffer[..], before, len, HexText(2 * count, draws), room);
    buffer[room] := '\0';
    return count * 2;
  }

  method WriteHexText(buffer: array<char>, room: nat, draws: seq<nat>)
    requires room <= buffer.Length && 16 * |draws| >= room
    modifies buffer
    ensures buffer[..] == HexText(room, draws) + old(buffer[room..])
  {
    hide HexDigits;
    ghost var before := buffer[..];
    var p: nat, ps: nat, g: nat := 0, room, 0;
    assert draws[0..] == draws;
    while ps >= 16
      invariant p + ps == room && g <= |draws| && 16 * (|draws| - g) >= ps
      invariant |buffer[..]| == |before|
      invariant buffer[..p] + HexText(ps, draws[g..]) == HexText(room, draws)
      invariant buffer[p..] == before[p..]
    {
      HexStep(ps, draws[g..]);
      assert draws[g..][0] == draws[g] && draws[g..][1..] == draws[g + 1..];
      ghost var head := buffer[..p];
      WriteHex(buffer, p, draws[g], 16);
      assert buffer[..p + 16] == head + HexDigits(draws[g], 16);
      assert buffer[p + 16..] == before[p..][16..];
      p, ps, g := p + 16, ps - 16, g + 1;
    }
    ghost var head := buffer[..p];
    LastHex(ps, draws[g..]);
    if ps > 0 {
      assert draws[g..][0] == draws[g];
      WriteHex(buffer, p, draws[g], ps);
      assert buffer[..] == head + HexDigits(draws[g], ps) + before[p..][ps..];
    } else {
      assert buffer[..] == head + before[p..];
    }
  }

  lemma LastHex(n: nat, draws: seq<nat>)
    requires n < 16 && n <= 16 * |draws|
    ensures HexText(n, draws) == if n == 0 then "" else HexDigits(draws[0], n)
  {
    hide HexDigits;
  }

  lemma HexStep(n: nat, draws: seq<nat>)
    requires 16 <= n <= 16 * |draws|
    ensures HexText(n, draws) == HexDigits(draws[0], 16) + HexText(n - 16, draws[1..])
  {
    hide HexDigits;
  }
}
