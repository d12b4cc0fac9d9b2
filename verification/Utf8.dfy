/** UTF-8 as defined by section 3 of RFC 3629: characters are Unicode scalar values. */
module Utf8 {
  import opened Options

  type Byte = b: int | 0 <= b < 256

  function EncodeChar(c: char): (bytes: seq<Byte>)
    ensures 1 <= |bytes| <= 4
  {
    var v := c as int;
    if v < 0x80 then [v]
    else if v < 0x800 then [0xC0 + v / 0x40, 0x80 + v % 0x40]
    else if v < 0x10000 then [0xE0 + v / 0x1000, 0x80 + v / 0x40 % 0x40, 0x80 + v % 0x40]
    else [0xF0 + v / 0x40000, 0x80 + v / 0x1000 % 0x40, 0x80 + v / 0x40 % 0x40, 0x80 + v % 0x40]
  }

  function Encode(s: string): seq<Byte> {
    if s == "" then [] else EncodeChar(s[0]) + Encode(s[1..])
  }

  predicate IsContinuation(b: Byte) {
    0x80 <= b < 0xC0
  }

  predicate IsScalar(v: int) {
    0 <= v < 0xD800 || 0xE000 <= v < 0x110000
  }

  /** Number of bytes a leading byte announces, 0 for a byte that cannot lead. */
  function Announced(b: Byte): nat {
    if b < 0x80 then 1
    else if 0xC2 <= b < 0xE0 then 2
    else if 0xE0 <= b < 0xF0 then 3
    else if 0xF0 <= b < 0xF5 then 4
    else 0
  }

  /** The bits that `n` bytes spell, marks removed. */
  function SpelledValue(bytes: seq<int>, n: nat): int
    requires 1 <= n <= 4 && n <= |bytes|
  {
    if n == 1 then bytes[0]
    else if n == 2 then (bytes[0] - 0xC0) * 0x40 + (bytes[1] - 0x80)
    else if n == 3 then (bytes[0] - 0xE0) * 0x1000 + (bytes[1] - 0x80) * 0x40 + (bytes[2] - 0x80)
    else (bytes[0] - 0xF0) * 0x40000 + (bytes[1] - 0x80) * 0x1000 + (bytes[2] - 0x80) * 0x40 + (bytes[3] - 0x80)
  }

  /** The character at the front, if the bytes start with the shortest encoding of one. */
  function DecodeFirst(bytes: seq<Byte>): (c: Option<char>)
    requires bytes != []
    ensures c.Some? ==> 0 < Announced(bytes[0]) <= |bytes|
  {
    var n := Announced(bytes[0]);
    if n == 0 || |bytes| < n || !(forall i | 1 <= i < n :: IsContinuation(bytes[i])) then None
    else
      var v := SpelledValue(bytes, n);
      if IsScalar(v) && (n == 3 ==> v >= 0x800) && (n == 4 ==> v >= 0x10000) then Some(v as char) else None
  }

  /** Strict decoding: `None` stands for the decoding error. */
  function Decode(bytes: seq<Byte>): Option<string> {
    if bytes == [] then Some("")
    else
      var first := DecodeFirst(bytes);
      if first.None? then None
      else
        var rest := Decode(bytes[Announced(bytes[0])..]);
        if rest.None? then None else Some([first.value] + rest.value)
  }

  lemma EncodedCharSpells(c: char)
    ensures var bytes := EncodeChar(c);
            && Announced(bytes[0]) == |bytes|
            && (forall i | 1 <= i < |bytes| :: IsContinuation(bytes[i]))
            && SpelledValue(bytes, |bytes|) == c as int
            && (|bytes| == 3 ==> c as int >= 0x800) && (|bytes| == 4 ==> c as int >= 0x10000)
  {
    var v := c as int;
    assert v == v / 0x40 * 0x40 + v % 0x40;
    assert v / 0x40 == v / 0x1000 * 0x40 + v / 0x40 % 0x40;
    assert v / 0x1000 == v / 0x40000 * 0x40 + v / 0x1000 % 0x40;
  }

  lemma EncodedCharLeads(c: char, rest: seq<Byte>)
    ensures Announced(EncodeChar(c)[0]) == |EncodeChar(c)|
    ensures DecodeFirst(EncodeChar(c) + rest) == Some(c)
  {
    var bytes := EncodeChar(c) + rest;
    EncodedCharSpells(c);
    assert forall i | 0 <= i < |EncodeChar(c)| :: bytes[i] == EncodeChar(c)[i];
    assert SpelledValue(bytes, |EncodeChar(c)|) == c as int;
  }

  /** Decoding undoes encoding. */
  lemma {:induction false} DecodeUndoesEncode(s: string)
    ensures Decode(Encode(s)) == Some(s)
  {
    if s == "" {
    } else {
      EncodedCharLeads(s[0], Encode(s[1..]));
      assert Encode(s)[|EncodeChar(s[0])|..] == Encode(s[1..]);
      DecodeUndoesEncode(s[1..]);
      assert s == [s[0]] + s[1..];
    }
  }

  lemma DivMod64(high: int, low: int)
    requires 0 <= low < 0x40
    ensures (high * 0x40 + low) / 0x40 == high && (high * 0x40 + low) % 0x40 == low
  {
  }

  /** Splitting a value into four groups of six bits undoes joining them. */
  lemma SixBitGroups(a: int, b: int, c: int, d: int)
    requires 0 <= b < 0x40 && 0 <= c < 0x40 && 0 <= d < 0x40
    ensures var v := a * 0x40000 + b * 0x1000 + c * 0x40 + d;
            v / 0x40000 == a && v / 0x1000 % 0x40 == b && v / 0x40 % 0x40 == c && v % 0x40 == d
    ensures var v := a * 0x40000 + b * 0x1000 + c * 0x40 + d; v / 0x1000 == a * 0x40 + b && v / 0x40 == a * 0x1000 + b * 0x40 + c
  {
    DivMod64(a, b);
    DivMod64(a * 0x40 + b, c);
    DivMod64((a * 0x40 + b) * 0x40 + c, d);
  }

  /** The encoding of a spelled value puts the same bits back into the same bytes. */
  lemma SpelledValueEncodes(bytes: seq<Byte>)
    requires bytes != [] && DecodeFirst(bytes).Some?
    ensures EncodeChar(DecodeFirst(bytes).value) == bytes[..Announced(bytes[0])]
  {
    var n := Announced(bytes[0]);
    if n == 2 {
      SixBitGroups(0, 0, bytes[0] as int - 0xC0, bytes[1] as int - 0x80);
    } else if n == 3 {
      SixBitGroups(0, bytes[0] as int - 0xE0, bytes[1] as int - 0x80, bytes[2] as int - 0x80);
    } else if n == 4 {
      SixBitGroups(bytes[0] as int - 0xF0, bytes[1] as int - 0x80, bytes[2] as int - 0x80, bytes[3] as int - 0x80);
    }
  }

  lemma EncodeFirst(c: char, rest: string)
    ensures Encode([c] + rest) == EncodeChar(c) + Encode(rest)
  {
    assert ([c] + rest)[1..] == rest;
  }

  lemma DecodeNext(c: char, rest: seq<Byte>)
    ensures Decode(EncodeChar(c) + rest) ==
            match Decode(rest) case None => None case Some(text) => Some([c] + text)
  {
    EncodedCharLeads(c, rest);
    assert (EncodeChar(c) + rest)[|EncodeChar(c)|..] == rest;
  }

  lemma EncodesJoined(bytes: seq<Byte>, n: nat, c: char, rest: string)
    requires n <= |bytes| && EncodeChar(c) == bytes[..n] && Encode(rest) == bytes[n..]
    ensures Encode([c] + rest) == bytes
  {
    EncodeFirst(c, rest);
  }

  /** Whatever decodes is the encoding of what it decodes to. */
  lemma {:induction false} EncodeUndoesDecode(bytes: seq<Byte>)
    requires Decode(bytes).Some?
    ensures Encode(Decode(bytes).value) == bytes
  {
    if bytes == [] {
    } else {
      var n := Announced(bytes[0]);
      var c, rest := DecodeFirst(bytes).value, Decode(bytes[n..]).value;
      SpelledValueEncodes(bytes);
      EncodeUndoesDecode(bytes[n..]);
      EncodesJoined(bytes, n, c, rest);
    }
  }

  /** Text and its encoding determine each other. */
  lemma DecodesTo(bytes: seq<Byte>, text: string)
    ensures Decode(bytes) == Some(text) <==> bytes == Encode(text)
  {
    DecodeUndoesEncode(text);
    if Decode(bytes).Some? {
      EncodeUndoesDecode(bytes);
    }
  }

  /** How many whole characters fit into `limit` bytes. */
  function FitCount(s: string, limit: int): (k: nat)
    ensures k <= |s|
  {
    if s == "" || |EncodeChar(s[0])| > limit then 0 else 1 + FitCount(s[1..], limit - |EncodeChar(s[0])|)
  }

  /** The fitting front is the longest: it fits, it is cut at a character, and at most three bytes
      of the limit stay unused when anything is cut. */
  lemma {:induction false} FitCountIsLongest(s: string, limit: nat)
    ensures var k := FitCount(s, limit);
            && |Encode(s[..k])| <= limit
            && Encode(s[..k]) <= Encode(s)
            && (k == |s| <==> |Encode(s)| <= limit)
            && (k < |s| ==> limit < |Encode(s[..k + 1])| <= |Encode(s[..k])| + 4)
  {
    if s != "" && |EncodeChar(s[0])| <= limit {
      var n := |EncodeChar(s[0])|;
      FitCountIsLongest(s[1..], limit - n);
      var k := FitCount(s[1..], limit - n);
      assert s[..k + 1][1..] == s[1..][..k];
      if k < |s| - 1 {
        assert s[..k + 2][1..] == s[1..][..k + 1];
      } else {
        assert s[..k + 1] == s;
      }
    } else if s != "" {
      assert s[..1][1..] == "";
      assert Encode(s[..1]) == EncodeChar(s[0]);
    }
  }

  lemma BrokenCharFails(c: char, m: nat)
    requires 0 < m < |EncodeChar(c)|
    ensures Decode(EncodeChar(c)[..m]) == None
  {
    EncodedCharSpells(c);
  }

  lemma FrontSplits(s: string, k: nat)
    requires s != "" && k < |s|
    ensures s[..k + 1] == [s[0]] + s[1..][..k]
  {
  }

  lemma CutJoined(a: seq<Byte>, b: seq<Byte>, m: nat)
    requires |a| <= m <= |a| + |b|
    ensures (a + b)[..m] == a + b[..m - |a|]
  {
  }

  /** Cutting encoded text decodes exactly at the character boundaries: no cut strictly after the
      fitting front decodes, and the fitting front itself does. */
  lemma {:induction false} CutDecodes(s: string, m: nat)
    requires m <= |Encode(s)|
    ensures var k := FitCount(s, m);
            if |Encode(s[..k])| == m then Decode(Encode(s)[..m]) == Some(s[..k])
            else Decode(Encode(s)[..m]) == None
  {
    if s == "" || m == 0 {
      assert Encode(s)[..0] == [];
    } else {
      var c, bytes := EncodeChar(s[0]), Encode(s)[..m];
      if |c| > m {
        assert bytes == c[..m];
        BrokenCharFails(s[0], m);
      } else {
        CutDecodes(s[1..], m - |c|);
        var left, k := m - |c|, FitCount(s[1..], m - |c|);
        FrontSplits(s, k);
        EncodeFirst(s[0], s[1..][..k]);
        CutJoined(c, Encode(s[1..]), m);
        DecodeNext(s[0], Encode(s[1..])[..left]);
      }
    }
  }

  predicate IsStripped(s: string) {
    s == "" || (s[|s| - 1] != ' ' && s[|s| - 1] != '.')
  }

  /** rstrip(" ."). */
  function StripEnd(s: string): (r: string)
    ensures r <= s && IsStripped(r)
    ensures forall i | |r| <= i < |s| :: s[i] == ' ' || s[i] == '.'
  {
    if IsStripped(s) then s else StripEnd(s[..|s| - 1])
  }

  const FALLBACK := "Unknown"

  /** What truncation yields: all of the text, its longest fitting front stripped at the end, or the
      fallback when not even one character fits. */
  function Truncated(value: string, maxBytes: nat): string {
    var k := FitCount(value, maxBytes);
    if k == |value| then value else if k == 0 then FALLBACK else StripEnd(value[..k])
  }

  /** One byte less fits as many characters unless the fitting front filled every byte. */
  lemma {:induction false} SameFit(s: string, m: nat)
    requires m > 0 && |Encode(s[..FitCount(s, m)])| < m
    ensures FitCount(s, m - 1) == FitCount(s, m)
  {
    if s == "" || |EncodeChar(s[0])| > m {
    } else {
      var k := FitCount(s[1..], m - |EncodeChar(s[0])|);
      assert s[..k + 1][1..] == s[1..][..k];
      SameFit(s[1..], m - |EncodeChar(s[0])|);
    }
  }

  /** The first `k` characters fit, and one more does not. */
  ghost predicate IsCut(value: string, maxBytes: nat, k: nat) {
    k < |value| && |Encode(value[..k])| <= maxBytes < |Encode(value[..k + 1])|
  }

  /** `r` is `s` without the spaces and dots at its end. */
  predicate IsStripOf(r: string, s: string) {
    && r <= s && (r == "" || (r[|r| - 1] != ' ' && r[|r| - 1] != '.'))
    && forall i | |r| <= i < |s| :: s[i] == ' ' || s[i] == '.'
  }

  lemma {:induction false} EncodeAppend(a: string, b: string)
    ensures Encode(a + b) == Encode(a) + Encode(b)
  {
    if a == "" {
      assert a + b == b;
    } else {
      assert (a + b)[1..] == a[1..] + b;
      EncodeAppend(a[1..], b);
    }
  }

  lemma FrontIsShorter(front: string, s: string)
    requires front <= s
    ensures |Encode(front)| <= |Encode(s)|
  {
    assert s == front + s[|front|..];
    EncodeAppend(front, s[|front|..]);
  }

  lemma CutIsFit(value: string, maxBytes: nat, k: nat)
    requires IsCut(value, maxBytes, k)
    ensures k == FitCount(value, maxBytes)
  {
    var f := FitCount(value, maxBytes);
    FitCountIsLongest(value, maxBytes);
    if k < f {
      FrontIsShorter(value[..k + 1], value[..f]);
    } else if f < k {
      FrontIsShorter(value[..f + 1], value[..k]);
    }
  }

  method TruncateUtf8(value: string, maxBytes: nat) returns (result: string)
    ensures result == Truncated(value, maxBytes)
    ensures |Encode(value)| <= maxBytes ==> result == value
    ensures forall k: nat | IsCut(value, maxBytes, k) ::
              if k == 0 then result == "Unknown" else IsStripOf(result, value[..k])
  {
    var encoded := Encode(value);
    FitCountIsLongest(value, maxBytes);
    forall k: nat | IsCut(value, maxBytes, k) ensures k == FitCount(value, maxBytes) {
      CutIsFit(value, maxBytes, k);
    }
    if |encoded| <= maxBytes {
      return value;
    }
    ghost var full := encoded;
    ghost var k := FitCount(value, maxBytes);
    encoded := encoded[..maxBytes];
    while encoded != []
      invariant |Encode(value[..k])| <= |encoded| <= maxBytes && encoded == full[..|encoded|]
      invariant FitCount(value, |encoded|) == k
      decreases |encoded|
    {
      var decoded := Decode(encoded);
      CutDecodes(value, |encoded|);
      if decoded.Some? {
        return StripEnd(decoded.value);
      }
      SameFit(value, |encoded|);
      encoded := encoded[..|encoded| - 1];
    }
    return FALLBACK;
  }

  // ----- Lengths of encoded text -----

  predicate IsAscii(s: string) {
    forall i | 0 <= i < |s| :: s[i] as int < 0x80
  }

  lemma {:induction false} AsciiLength(s: string)
    requires IsAscii(s)
    ensures |Encode(s)| == |s|
  {
    if s == "" {
    } else {
      AsciiLength(s[1..]);
    }
  }

  /** Truncated text keeps the byte limit exactly when at least one character fits; the seven bytes
      of the fallback exceed every limit that is too small for a character. */
  lemma TruncationKeepsLimit(value: string, maxBytes: nat)
    ensures |Encode(Truncated(value, maxBytes))| <= maxBytes <==> value == "" || FitCount(value, maxBytes) > 0
    ensures maxBytes >= 4 ==> |Encode(Truncated(value, maxBytes))| <= maxBytes
  {
    var k := FitCount(value, maxBytes);
    FitCountIsLongest(value, maxBytes);
    if k == |value| {
      assert value[..k] == value;
    } else if k == 0 {
      AsciiLength(FALLBACK);
    } else {
      FrontIsShorter(StripEnd(value[..k]), value[..k]);
    }
  }

  /** Truncation that cuts drops nothing but characters that do not fit, and the spaces and dots then
      left at the end; at most three bytes of the limit stay unused before those are dropped. */
  lemma TruncationIsLongest(value: string, maxBytes: nat)
    requires |Encode(value)| > maxBytes && maxBytes >= 4
    ensures var k := FitCount(value, maxBytes);
            && 0 < k < |value|
            && Truncated(value, maxBytes) == StripEnd(value[..k])
            && maxBytes - 3 <= |Encode(value[..k])| <= maxBytes < |Encode(value[..k + 1])|
  {
    FitCountIsLongest(value, maxBytes);
  }

  /** The fallback can exceed the limit: no character of two bytes fits into one. */
  lemma FallbackCanExceedLimit(value: string)
    requires value == [0xE9 as char]
    ensures Truncated(value, 1) == FALLBACK && |Encode(Truncated(value, 1))| == 7
  {
    assert |EncodeChar(value[0])| == 2;
    AsciiLength(FALLBACK);
  }
}
