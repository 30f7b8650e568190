/** Base64 encoding and decoding (ge/common/base64.h), section 4 of RFC 4648. */
module Base64 {
  import opened Wrappers
  type byte = x: int | 0 <= x < 256
  type sextet = x: int | 0 <= x < 64

  const UPPER: string := "ABCDEFGHIJKLMNOPQRSTUVWXYZ"
  const LOWER: string := "abcdefghijklmnopqrstuvwxyz"
  const OTHER: string := "0123456789+/"
  const CHARS: string := UPPER + LOWER + OTHER
  const PAD: char := '='

  // ----- the alphabet

  lemma CharsLength()
    ensures |UPPER| == 26 && |LOWER| == 26 && |OTHER| == 12 && |CHARS| == 64
  {}

  /** The table in closed form. */
  function CharOf(i: sextet): char {
    if i < 26 then 'A' + i as char
    else if i < 52 then 'a' + (i - 26) as char
    else if i < 62 then '0' + (i - 52) as char
    else if i == 62 then '+' else '/'
  }

  lemma UpperIs(i: nat)
    requires i < 26
    ensures UPPER[i] == 'A' + i as char
  {}

  lemma LowerIs(i: nat)
    requires i < 26
    ensures LOWER[i] == 'a' + i as char
  {}

  lemma OtherIs(i: nat)
    requires i < 12
    ensures OTHER[i] == if i < 10 then '0' + i as char else if i == 10 then '+' else '/'
  {}

  lemma CharsIs(i: sextet)
    ensures |CHARS| == 64 && CHARS[i] == CharOf(i)
  {
    CharsLength();
    if i < 26 {
      UpperIs(i);
      assert CHARS[i] == UPPER[i];
    } else if i < 52 {
      LowerIs(i - 26);
      assert CHARS[i] == LOWER[i - 26];
    } else {
      OtherIs(i - 52);
      assert CHARS[i] == OTHER[i - 52];
    }
  }

  predicate IsBase64Char(c: char) {
    'a' <= c <= 'z' || 'A' <= c <= 'Z' || '0' <= c <= '9' || c == '+' || c == '/'
  }

  /** The first position of a character in the table from position `p` on, 64 if there is none. */
  function FindFrom(c: char, p: nat): (r: nat)
    requires p <= 64
    ensures p <= r <= 64
    ensures r < 64 ==> CharOf(r) == c
    ensures forall q: sextet :: p <= q < r ==> CharOf(q) != c
    decreases 64 - p
  {
    CharsLength();
    if p < 64 then
      CharsIs(p);
      if CHARS[p] == c then p else FindFrom(c, p + 1)
    else 64
  }

  function Find(c: char): nat {
    FindFrom(c, 0)
  }

  /** Looking up a character and writing a six-bit number are inverses. */
  lemma FindInverse(c: char, i: sextet)
    ensures IsBase64Char(CharOf(i)) && Find(CharOf(i)) == i
    ensures IsBase64Char(c) <==> Find(c) < 64
    ensures IsBase64Char(c) ==> CharOf(Find(c)) == c
  {
    hide FindFrom;
    if IsBase64Char(c) {
      var j: sextet := if 'A' <= c <= 'Z' then c as int - 65 else if 'a' <= c <= 'z' then c as int - 71
                       else if '0' <= c <= '9' then c as int + 4 else if c == '+' then 62 else 63;
      assert CharOf(j) == c;
    }
  }

  // ----- encoding

  /** The four characters for one to three bytes; missing bytes count as zero bits and padding. */
  function EncodeGroup(raw: seq<byte>): (r: string)
    requires 1 <= |raw| <= 3
    ensures |r| == 4
  {
    var a, b, c := raw[0], if |raw| > 1 then raw[1] else 0, if |raw| > 2 then raw[2] else 0;
    [CharOf(a / 4), CharOf(a % 4 * 16 + b / 16),
     if |raw| > 1 then CharOf(b % 16 * 4 + c / 64) else PAD,
     if |raw| > 2 then CharOf(c % 64) else PAD]
  }

  function Encode(raw: seq<byte>): string {
    if raw == [] then []
    else if |raw| <= 3 then EncodeGroup(raw)
    else EncodeGroup(raw[..3]) + Encode(raw[3..])
  }

  lemma {:induction false} EncodeLength(raw: seq<byte>)
    ensures |Encode(raw)| == (|raw| + 2) / 3 * 4
  {
    hide EncodeGroup;
    if |raw| > 3 {
      EncodeLength(raw[3..]);
      assert (|raw| + 2) / 3 == (|raw| - 3 + 2) / 3 + 1;
    }
  }

  lemma {:induction false} EncodeSplit(raw: seq<byte>, rest: seq<byte>)
    requires |raw| % 3 == 0
    ensures Encode(raw + rest) == Encode(raw) + Encode(rest)
  {
    hide EncodeGroup;
    if raw == [] {
      assert raw + rest == rest;
    } else if |raw| == 3 {
      assert (raw + rest)[..3] == raw && (raw + rest)[3..] == rest;
      if rest == [] { assert raw + rest == raw; }
    } else {
      assert (raw + rest)[..3] == raw[..3] && (raw + rest)[3..] == raw[3..] + rest;
      EncodeSplit(raw[3..], rest);
    }
  }

  /** The encoder: a string sized up front, full groups by index, then the tail. */
  method EncodeToBase64(raw: seq<byte>) returns (r: string)
    ensures r == Encode(raw)
  {
    hide Encode, EncodeGroup;
    var length := |raw| / 3 * 4 + if |raw| % 3 == 0 then 0 else 4;
    var out := new char[length];
    var i, o := 0, 0;
    EncodeNothing(raw);
    while i + 3 <= |raw|
      invariant i % 3 == 0 && i <= |raw| && o == i / 3 * 4 <= length
      invariant out[..o] == Encode(raw[..i])
    {
      WriteGroup(out, o, raw[i..i + 3]);
      EncodeStep(raw, i, i + 3);
      i, o := i + 3, o + 4;
    }
    if i < |raw| {
      WriteGroup(out, o, raw[i..]);
      EncodeStep(raw, i, |raw|);
      o := o + 4;
      assert raw[..|raw|] == raw && raw[i..|raw|] == raw[i..];
    }
    assert o == length && (i == |raw| ==> raw[..i] == raw);
    r := out[..];
  }

  lemma EncodeNothing(raw: seq<byte>)
    ensures Encode(raw[..0]) == []
  {}

  lemma EncodeStep(raw: seq<byte>, i: nat, j: nat)
    requires i % 3 == 0 && i < j <= |raw| && j <= i + 3
    ensures Encode(raw[..j]) == Encode(raw[..i]) + EncodeGroup(raw[i..j])
  {
    hide EncodeGroup;
    assert raw[..j] == raw[..i] + raw[i..j];
    EncodeSplit(raw[..i], raw[i..j]);
  }

  /** Writes one group through the table; two or one bytes are the tail with its padding. */
  method WriteGroup(out: array<char>, o: nat, raw: seq<byte>)
    requires 1 <= |raw| <= 3 && o + 4 <= out.Length
    modifies out
    ensures out[..o + 4] == old(out[..o]) + EncodeGroup(raw)
  {
    var a := raw[0];
    PutChar(out, o, a / 4);
    if |raw| == 1 {
      PutChar(out, o + 1, a % 4 * 16);
      out[o + 2] := PAD;
      out[o + 3] := PAD;
    } else {
      var b := raw[1];
      PutChar(out, o + 1, a % 4 * 16 + b / 16);
      if |raw| == 2 {
        PutChar(out, o + 2, b % 16 * 4);
        out[o + 3] := PAD;
      } else {
        var c := raw[2];
        PutChar(out, o + 2, b % 16 * 4 + c / 64);
        PutChar(out, o + 3, c % 64);
      }
    }
    assert out[..o + 4] == out[..o] + [out[o], out[o + 1], out[o + 2], out[o + 3]];
  }

  method PutChar(out: array<char>, o: nat, i: sextet)
    requires o < out.Length
    modifies out
    ensures out[..] == old(out[..])[o := CharOf(i)]
  {
    CharsIs(i);
    out[o] := CHARS[i];
  }

  // ----- decoding

  /** A character at position `p`: from the alphabet, or padding in the second half of the last group. */
  predicate LegalAt(s: string, p: int)
    requires 0 <= p < |s|
  {
    IsBase64Char(s[p]) || (s[p] == PAD && p >= |s| - 4 && p % 4 > 1)
  }

  predicate Legal(s: string) {
    |s| % 4 == 0 && forall p :: 0 <= p < |s| ==> LegalAt(s, p)
  }

  predicate LegalGroup(g: string) {
    |g| == 4 && IsBase64Char(g[0]) && IsBase64Char(g[1])
    && (IsBase64Char(g[2]) || g[2] == PAD) && (IsBase64Char(g[3]) || g[3] == PAD)
  }

  function DecodeGroup(g: string): (r: seq<byte>)
    requires LegalGroup(g)
    ensures 1 <= |r| <= 3
  {
    FindInverse(g[0], 0); FindInverse(g[1], 0); FindInverse(g[2], 0); FindInverse(g[3], 0);
    var a, b := Find(g[0]), Find(g[1]);
    if g[2] == PAD then [a * 4 + b / 16]
    else
      var c := Find(g[2]);
      if g[3] == PAD then [a * 4 + b / 16, b % 16 * 16 + c / 4]
      else [a * 4 + b / 16, b % 16 * 16 + c / 4, c % 4 * 64 + Find(g[3])]
  }

  function Decode(s: string): seq<byte>
    requires Legal(s)
  {
    if s == [] then []
    else
      LegalParts(s);
      DecodeGroup(s[..4]) + Decode(s[4..])
  }

  lemma LegalParts(s: string)
    requires Legal(s) && s != []
    ensures |s| >= 4 && LegalGroup(s[..4]) && Legal(s[4..])
    ensures |s| > 4 ==> s[2] != PAD && s[3] != PAD
  {
    assert LegalAt(s, 0) && LegalAt(s, 1) && LegalAt(s, 2) && LegalAt(s, 3);
    var rest := s[4..];
    forall p | 0 <= p < |rest| ensures LegalAt(rest, p) {
      assert LegalAt(s, p + 4);
    }
  }

  lemma LegalSuffix(s: string, i: nat)
    requires Legal(s) && i % 4 == 0 && i <= |s|
    ensures Legal(s[i..])
  {
    hide IsBase64Char;
    var rest := s[i..];
    SameGroupPlace(|rest|, i);
    forall p | 0 <= p < |rest| ensures LegalAt(rest, p) {
      SameGroupPlace(p, i);
      assert LegalAt(s, p + i);
    }
  }

  /** Leaving out whole groups keeps the place in a group. */
  lemma SameGroupPlace(p: nat, i: nat)
    requires i % 4 == 0
    ensures (p + i) % 4 == p % 4
  {}

  /** What is still to decode; nothing is promised about an illegal string. */
  ghost predicate Decoded(s: string, n: nat, out: seq<byte>)
    requires 4 * n <= |s|
  {
    Legal(s) ==> (LegalSuffix(s, 4 * n); out + Decode(s[4 * n..]) == Decode(s))
  }

  lemma DecodedStep(s: string, n: nat, out: seq<byte>, g: string)
    requires 4 * n + 4 <= |s| && LegalGroup(g) && s[4 * n..4 * n + 4] == g
    requires Decoded(s, n, out)
    ensures Decoded(s, n + 1, out + DecodeGroup(g))
  {
    hide DecodeGroup;
    if Legal(s) {
      LegalSuffix(s, 4 * n);
      var rest := s[4 * n..];
      assert rest[..4] == g && rest[4..] == s[4 * (n + 1)..];
      LegalParts(rest);
    }
  }

  /** Six-bit numbers of one group, with 64 for padding. */
  method ReadGroup(s: string, at: nat, byte4: array<int>) returns (ok: bool)
    requires |s| % 4 == 0 && at % 4 == 0 && at + 4 <= |s| && byte4.Length == 4
    modifies byte4
    ensures ok <==> forall p :: at <= p < at + 4 ==> LegalAt(s, p)
    ensures ok ==> forall k :: 0 <= k < 4 ==> byte4[k] == if s[at + k] == PAD then 64 else Find(s[at + k])
  {
    hide Find;
    for i := 0 to 4
      invariant forall p :: at <= p < at + i ==> LegalAt(s, p)
      invariant forall k :: 0 <= k < i ==> byte4[k] == if s[at + k] == PAD then 64 else Find(s[at + k])
    {
      var c := s[at + i];
      assert LegalAt(s, at + i) <==> IsBase64Char(c) || (c == PAD && at >= |s| - 4 && i > 1);
      if c == PAD && at >= |s| - 4 && i > 1 {
        byte4[i] := 64;
      } else if IsBase64Char(c) {
        byte4[i] := Find(c);
      } else {
        return false;
      }
    }
    ok := true;
  }

  /** One round of the decoder: the bytes of a group, and whether padding ends the loop. */
  method DecodeRound(s: string, at: nat, byte4: array<int>) returns (ok: bool, bytes: seq<byte>, last: bool)
    requires |s| % 4 == 0 && at % 4 == 0 && at + 4 <= |s| && byte4.Length == 4
    modifies byte4
    ensures ok <==> forall p :: at <= p < at + 4 ==> LegalAt(s, p)
    ensures ok ==> LegalGroup(s[at..at + 4]) && bytes == DecodeGroup(s[at..at + 4])
    ensures ok && last ==> at + 4 == |s|
  {
    hide Find, DecodeGroup;
    bytes, last := [], false;
    ok := ReadGroup(s, at, byte4);
    if !ok {
      return;
    }
    assert LegalAt(s, at) && LegalAt(s, at + 1) && LegalAt(s, at + 2) && LegalAt(s, at + 3);
    GroupBytes(s[at..at + 4], byte4[..]);
    var a, b, c, d := byte4[0], byte4[1], byte4[2], byte4[3];
    bytes := [a * 4 + b / 16];
    if c >= 64 {
      last := true;
      return;
    } else if d >= 64 {
      bytes := bytes + [b % 16 * 16 + c / 4];
      last := true;
      return;
    }
    bytes := bytes + [b % 16 * 16 + c / 4];
    bytes := bytes + [c % 4 * 64 + d];
  }

  /** The decoder accepts exactly the legal strings; padding ends the loop in the last group. */
  method DecodeFromBase64(s: string) returns (r: Option<seq<byte>>)
    ensures r.Some? <==> Legal(s)
    ensures r.Some? ==> r.value == Decode(s)
  {
    hide Decode, DecodeGroup, LegalAt, LegalGroup, Decoded;
    if |s| % 4 != 0 {
      return None;
    }
    var out: seq<byte> := [];
    var byte4 := new int[4];
    var i := 0;
    NothingDecoded(s);
    while i < |s|
      invariant i == 4 * (i / 4) && 0 <= i <= |s|
      invariant forall p :: 0 <= p < i ==> LegalAt(s, p)
      invariant Decoded(s, i / 4, out)
    {
      var ok, bytes, last := DecodeRound(s, i, byte4);
      if !ok {
        return None;
      }
      DecodedStep(s, i / 4, out, s[i..i + 4]);
      out := out + bytes;
      i := i + 4;
      if last {
        break;
      }
    }
    DecodeNothing(s, out);
    r := Some(out);
  }

  lemma NothingDecoded(s: string)
    ensures Decoded(s, 0, [])
  {
    assert s[0..] == s;
  }

  lemma GroupBytes(g: string, n: seq<int>)
    requires LegalGroup(g) && |n| == 4
    requires forall k :: 0 <= k < 4 ==> n[k] == if g[k] == PAD then 64 else Find(g[k])
    ensures 0 <= n[0] < 64 && 0 <= n[1] < 64 && 0 <= n[2] <= 64 && 0 <= n[3] <= 64
    ensures g[2] == PAD <==> n[2] == 64
    ensures g[3] == PAD <==> n[3] == 64
    ensures var one := [n[0] * 4 + n[1] / 16];
            DecodeGroup(g) == if n[2] == 64 then one
                              else if n[3] == 64 then one + [n[1] % 16 * 16 + n[2] / 4]
                              else one + [n[1] % 16 * 16 + n[2] / 4] + [n[2] % 4 * 64 + n[3]]
  {
    hide Find;
    FindInverse(g[0], 0);
    FindInverse(g[1], 0);
    FindInverse(g[2], 0);
    FindInverse(g[3], 0);
  }

  lemma DecodeNothing(s: string, out: seq<byte>)
    requires |s| % 4 == 0 && Decoded(s, |s| / 4, out) && forall p :: 0 <= p < |s| ==> LegalAt(s, p)
    ensures out == Decode(s)
  {
    assert 4 * (|s| / 4) == |s| && s[|s|..] == [];
  }

  // ----- the laws

  /** Three bytes cut into four six-bit numbers join to the same bytes. */
  lemma CutThenJoin(a: byte, b: byte, c: byte)
    ensures var p, q, r, t := a / 4, a % 4 * 16 + b / 16, b % 16 * 4 + c / 64, c % 64;
            p * 4 + q / 16 == a && q % 16 * 16 + r / 4 == b && r % 4 * 64 + t == c
  {}

  lemma JoinThenCut(p: sextet, q: sextet, r: sextet, t: sextet)
    ensures var a, b, c := p * 4 + q / 16, q % 16 * 16 + r / 4, r % 4 * 64 + t;
            a / 4 == p && a % 4 * 16 + b / 16 == q && b % 16 * 4 + c / 64 == r && c % 64 == t
  {}

  /** Six-bit numbers come back from the characters of a group. */
  lemma GroupDigitsBack(raw: seq<byte>)
    requires 1 <= |raw| <= 3
    ensures var a, b, c := raw[0], if |raw| > 1 then raw[1] else 0, if |raw| > 2 then raw[2] else 0;
            var g := EncodeGroup(raw);
            && LegalGroup(g)
            && Find(g[0]) == a / 4 && Find(g[1]) == a % 4 * 16 + b / 16
            && (if |raw| == 1 then g[2] == PAD else g[2] != PAD && Find(g[2]) == b % 16 * 4 + c / 64)
            && (if |raw| <= 2 then g[3] == PAD else g[3] != PAD && Find(g[3]) == c % 64)
  {
    hide Find, CharOf;
    var a, b, c := raw[0], if |raw| > 1 then raw[1] else 0, if |raw| > 2 then raw[2] else 0;
    FindInverse('A', a / 4);
    FindInverse('A', a % 4 * 16 + b / 16);
    FindInverse('A', b % 16 * 4 + c / 64);
    FindInverse('A', c % 64);
  }

  /** One group comes back. */
  lemma GroupRoundTrip(raw: seq<byte>)
    requires 1 <= |raw| <= 3
    ensures LegalGroup(EncodeGroup(raw)) && DecodeGroup(EncodeGroup(raw)) == raw
    ensures EncodeGroup(raw)[2] == PAD <==> |raw| == 1
    ensures EncodeGroup(raw)[3] == PAD <==> |raw| <= 2
  {
    hide Find, EncodeGroup;
    GroupDigitsBack(raw);
    CutThenJoin(raw[0], if |raw| > 1 then raw[1] else 0, if |raw| > 2 then raw[2] else 0);
  }

  /** Decoding undoes encoding for every byte string. */
  lemma {:induction false} RoundTrip(raw: seq<byte>)
    ensures Legal(Encode(raw)) && Decode(Encode(raw)) == raw
  {
    hide EncodeGroup, DecodeGroup;
    if raw != [] {
      var n := if |raw| <= 3 then |raw| else 3;
      var head, tail := raw[..n], raw[n..];
      var g, rest := EncodeGroup(head), Encode(tail);
      GroupRoundTrip(head);
      RoundTrip(tail);
      assert Encode(raw) == g + rest by {
        if |raw| <= 3 { assert head == raw && tail == []; }
      }
      LegalJoin(g, rest);
      assert (g + rest)[..4] == g && (g + rest)[4..] == rest;
      assert raw == head + tail;
    }
  }

  lemma LegalJoin(g: string, rest: string)
    requires LegalGroup(g) && Legal(rest) && (rest != [] ==> g[2] != PAD && g[3] != PAD)
    ensures Legal(g + rest)
  {
    var s := g + rest;
    forall p | 0 <= p < |s| ensures LegalAt(s, p) {
      if p >= 4 { assert LegalAt(rest, p - 4); }
    }
  }

  /** Canonical in the sense of section 3.5 of RFC 4648: padding last, unused bits zero. */
  predicate CanonicalGroup(g: string)
    requires LegalGroup(g)
  {
    if g[2] == PAD then g[3] == PAD && Find(g[1]) % 16 == 0
    else g[3] == PAD ==> Find(g[2]) % 4 == 0
  }

  predicate Canonical(s: string)
    requires Legal(s)
  {
    s == [] || (LegalParts(s); CanonicalGroup(s[..4]) && Canonical(s[4..]))
  }

  lemma CanonicalGroupExact(g: string)
    requires LegalGroup(g)
    ensures CanonicalGroup(g) <==> EncodeGroup(DecodeGroup(g)) == g
    ensures |DecodeGroup(g)| == 3 <==> g[2] != PAD && g[3] != PAD
  {
    if g[2] == PAD {
      OneByteGroup(g);
    } else if g[3] == PAD {
      TwoByteGroup(g);
    } else {
      FullGroup(g);
    }
  }

  lemma OneByteGroup(g: string)
    requires LegalGroup(g) && g[2] == PAD
    ensures CanonicalGroup(g) <==> EncodeGroup(DecodeGroup(g)) == g
  {
    hide Find, CharOf;
    FindInverse(g[0], 0);
    FindInverse(g[1], 0);
    var p, q := Find(g[0]), Find(g[1]);
    JoinThenCut(p, q, 0, 0);
    SameChar(q / 16 * 16, q);
  }

  lemma TwoByteGroup(g: string)
    requires LegalGroup(g) && g[2] != PAD && g[3] == PAD
    ensures CanonicalGroup(g) <==> EncodeGroup(DecodeGroup(g)) == g
  {
    hide Find, CharOf;
    FindInverse(g[0], 0);
    FindInverse(g[1], 0);
    FindInverse(g[2], 0);
    var p, q, r := Find(g[0]), Find(g[1]), Find(g[2]);
    JoinThenCut(p, q, r, 0);
    SameChar(r / 4 * 4, r);
  }

  lemma FullGroup(g: string)
    requires LegalGroup(g) && g[2] != PAD && g[3] != PAD
    ensures CanonicalGroup(g) && EncodeGroup(DecodeGroup(g)) == g
  {
    hide Find, CharOf;
    FindInverse(g[0], 0);
    FindInverse(g[1], 0);
    FindInverse(g[2], 0);
    FindInverse(g[3], 0);
    var p, q, r, t := Find(g[0]), Find(g[1]), Find(g[2]), Find(g[3]);
    var d := DecodeGroup(g);
    assert d == [p * 4 + q / 16, q % 16 * 16 + r / 4, r % 4 * 64 + t];
    JoinThenCut(p, q, r, t);
    assert EncodeGroup(d) == [CharOf(p), CharOf(q), CharOf(r), CharOf(t)];
  }

  lemma SameChar(i: sextet, j: sextet)
    ensures CharOf(i) == CharOf(j) <==> i == j
  {
    hide Find, CharOf;
    FindInverse('A', i);
    FindInverse('A', j);
  }

  /** Encoding undoes decoding exactly on the canonical strings among those the decoder accepts. */
  lemma {:induction false} CanonicalExact(s: string)
    requires Legal(s)
    ensures Canonical(s) <==> Encode(Decode(s)) == s
  {
    hide EncodeGroup, DecodeGroup, CanonicalGroup;
    if s != [] {
      LegalParts(s);
      var g, rest := s[..4], s[4..];
      CanonicalGroupExact(g);
      CanonicalExact(rest);
      var d := DecodeGroup(g);
      assert s == g + rest && Decode(s) == d + Decode(rest);
      if rest == [] {
        assert Decode(s) == d && s == g;
      } else {
        EncodeSplit(d, Decode(rest));
        assert Encode(Decode(s)) == EncodeGroup(d) + Encode(Decode(rest));
        assert Encode(Decode(s))[..4] == EncodeGroup(d) && Encode(Decode(s))[4..] == Encode(Decode(rest));
      }
    }
  }

  /** The decoder is more liberal: three spellings of the same byte, only the first canonical. */
  lemma ThreeSpellings()
    ensures Legal("QQ==") && Legal("QR==") && Legal("QQ=A")
    ensures Decode("QQ==") == Decode("QR==") == Decode("QQ=A") == [65]
    ensures Canonical("QQ==") && !Canonical("QR==") && !Canonical("QQ=A")
  {
    hide Find, EncodeGroup;
    FindInverse('A', 0);
    FindInverse('A', 16);
    FindInverse('A', 17);
    assert CharOf(16) == 'Q' && CharOf(17) == 'R';
    OneGroup("QQ==");
    OneGroup("QR==");
    OneGroup("QQ=A");
  }

  lemma OneGroup(g: string)
    requires LegalGroup(g)
    ensures Legal(g) && Decode(g) == DecodeGroup(g) && (Canonical(g) <==> CanonicalGroup(g))
  {
    hide DecodeGroup, CanonicalGroup;
    assert g[..4] == g && g[4..] == [];
  }

  // ----- the meaning of the encoding

  /** The alphabet of section 4 of RFC 4648, by ranges. */
  predicate InAlphabet(c: char) {
    'A' <= c <= 'Z' || 'a' <= c <= 'z' || '0' <= c <= '9' || c == '+' || c == '/'
  }

  function DigitValue(c: char): (v: nat)
    requires InAlphabet(c)
    ensures v < 64
  {
    if 'A' <= c <= 'Z' then c as int - 65
    else if 'a' <= c <= 'z' then c as int - 71
    else if '0' <= c <= '9' then c as int + 4
    else if c == '+' then 62 else 63
  }

  /** The table and its lookup are the alphabet of the standard. */
  lemma AlphabetExact(c: char, i: sextet)
    ensures |CHARS| == 64 && InAlphabet(CHARS[i]) && DigitValue(CHARS[i]) == i
    ensures IsBase64Char(c) <==> InAlphabet(c)
    ensures InAlphabet(c) ==> Find(c) == DigitValue(c)
  {
    CharsIs(i);
    if InAlphabet(c) {
      hide Find;
      FindInverse(c, DigitValue(c));
      assert CharOf(DigitValue(c)) == c;
    }
  }

  /** The bytes as one big-endian number, after `acc`. */
  function Number(acc: nat, raw: seq<byte>): nat
    decreases |raw|
  {
    if raw == [] then acc else Number(acc * 256 + raw[0], raw[1..])
  }

  /** The characters as one number with 64 as base, after `acc`; what is not in the alphabet is no digit. */
  function Digits(acc: nat, s: string): nat
    decreases |s|
  {
    if s == [] then acc else Digits(NextDigit(acc, s[0]), s[1..])
  }

  function NextDigit(acc: nat, c: char): nat {
    if InAlphabet(c) then acc * 64 + DigitValue(c) else acc
  }

  /**
   * Both sides write the same bits: the characters are the base-64 digits of the number the bytes
   * write, with four or two zero bits after it when the last group is short.
   */
  lemma {:induction false} EncodeWritesNumber(acc: nat, raw: seq<byte>)
    ensures Digits(acc, Encode(raw))
         == Number(acc, raw) * (if |raw| % 3 == 1 then 16 else if |raw| % 3 == 2 then 4 else 1)
    decreases |raw|
  {
    hide Find, CharOf, EncodeGroup;
    if raw != [] {
      var n := if |raw| <= 3 then |raw| else 3;
      var head, tail := raw[..n], raw[n..];
      assert raw == head + tail;
      var g := EncodeGroup(head);
      assert Encode(raw) == g + Encode(tail) by {
        if |raw| <= 3 { assert head == raw && tail == []; }
      }
      GroupDigits(acc, head, Encode(tail));
      NumberOfGroup(acc, head, tail);
      if |raw| > 3 {
        EncodeWritesNumber(GroupNumber(acc, head), tail);
      } else {
        assert tail == [];
        if |raw| == 3 { EncodeWritesNumber(GroupNumber(acc, head), tail); }
      }
    }
  }

  function GroupNumber(acc: nat, raw: seq<byte>): nat
    requires 1 <= |raw| <= 3
  {
    if |raw| == 1 then acc * 256 + raw[0]
    else if |raw| == 2 then (acc * 256 + raw[0]) * 256 + raw[1]
    else ((acc * 256 + raw[0]) * 256 + raw[1]) * 256 + raw[2]
  }

  lemma NumberOfGroup(acc: nat, raw: seq<byte>, rest: seq<byte>)
    requires 1 <= |raw| <= 3
    ensures Number(acc, raw + rest) == Number(GroupNumber(acc, raw), rest)
  {
    hide Number;
    Number1(acc, raw, rest);
    if |raw| > 1 {
      Number1(acc * 256 + raw[0], raw[1..], rest);
    }
    if |raw| > 2 {
      Number1((acc * 256 + raw[0]) * 256 + raw[1], raw[2..], rest);
    }
    assert raw[|raw|..] + rest == rest;
  }

  lemma Number1(acc: nat, raw: seq<byte>, rest: seq<byte>)
    requires raw != []
    ensures Number(acc, raw + rest) == Number(acc * 256 + raw[0], raw[1..] + rest)
  {
    assert (raw + rest)[1..] == raw[1..] + rest;
  }

  lemma GroupDigits(acc: nat, raw: seq<byte>, rest: string)
    requires 1 <= |raw| <= 3
    ensures Digits(acc, EncodeGroup(raw) + rest)
         == Digits(GroupNumber(acc, raw) * (if |raw| == 1 then 16 else if |raw| == 2 then 4 else 1), rest)
  {
    hide Find, CharOf, Digits, NextDigit;
    var a, b, c := raw[0], if |raw| > 1 then raw[1] else 0, if |raw| > 2 then raw[2] else 0;
    FourDigits(acc, EncodeGroup(raw), rest);
    Regroup(acc, a, b, c);
    var one := acc * 64 + a / 4;
    var two := one * 64 + (a % 4 * 16 + b / 16);
    var three := two * 64 + (b % 16 * 4 + c / 64);
    DigitOf(acc, a / 4);
    DigitOf(one, a % 4 * 16 + b / 16);
    DigitOf(two, b % 16 * 4 + c / 64);
    DigitOf(three, c % 64);
  }

  lemma DigitOf(acc: nat, i: sextet)
    ensures NextDigit(acc, CharOf(i)) == acc * 64 + i
    ensures NextDigit(acc, PAD) == acc
  {
    hide Find, DigitValue;
    CharsIs(i);
    AlphabetExact('A', i);
  }

  lemma Regroup(acc: nat, a: byte, b: byte, c: byte)
    ensures var p, q, r, t := a / 4, a % 4 * 16 + b / 16, b % 16 * 4 + c / 64, c % 64;
            && (((acc * 64 + p) * 64 + q) * 64 + r) * 64 + t == ((acc * 256 + a) * 256 + b) * 256 + c
            && (c == 0 ==> ((acc * 64 + p) * 64 + q) * 64 + r == ((acc * 256 + a) * 256 + b) * 4)
            && (b == 0 ==> (acc * 64 + p) * 64 + q == (acc * 256 + a) * 16)
  {}

  lemma FourDigits(acc: nat, g: string, rest: string)
    requires |g| == 4
    ensures Digits(acc, g + rest) == Digits(NextDigit(NextDigit(NextDigit(NextDigit(acc, g[0]), g[1]), g[2]), g[3]), rest)
  {
    hide Find;
    var s := g + rest;
    assert s[1..] == g[1..] + rest && s[1..][1..] == g[2..] + rest;
    assert s[1..][1..][1..] == g[3..] + rest && s[1..][1..][1..][1..] == rest;
    Digits1(acc, s);
    Digits1(NextDigit(acc, g[0]), s[1..]);
  }

  lemma Digits1(acc: nat, s: string)
    requires s != []
    ensures Digits(acc, s) == Digits(NextDigit(acc, s[0]), s[1..])
  {}

  // ----- the meaning of decoding

  /** The characters that decoding uses: not those from the first padding on. */
  function Used(s: string): string {
    if |s| >= 2 && s[|s| - 2] == PAD then s[..|s| - 2]
    else if |s| >= 1 && s[|s| - 1] == PAD then s[..|s| - 1]
    else s
  }

  /** What the bits that a short last group leaves over scale the digits by. */
  function Surplus(digits: nat): nat {
    if digits % 4 == 2 then 16 else if digits % 4 == 3 then 4 else 1
  }

  /**
   * The decoder on every string it accepts, canonical or not: the bytes write the number of the digits
   * before the padding, without its last four or two bits when the last group is short.
   */
  lemma {:induction false} DecodeReadsNumber(acc: nat, s: string)
    requires Legal(s)
    ensures Number(acc, Decode(s)) == Digits(acc, Used(s)) / Surplus(|Used(s)|)
    decreases |s|
  {
    hide DecodeGroup, NextDigit, GroupNumber, LegalGroup, Legal, Used, Surplus;
    if s == [] {
      assert Used([]) == [] && Surplus(0) == 1 by { UsedNothing(); }
    } else {
      LegalParts(s);
      var g, rest := s[..4], s[4..];
      if |s| > 4 {
        var d := DecodeGroup(g);
        NumberOfGroup(acc, d, Decode(rest));
        GroupReads(acc, g);
        DecodeReadsNumber(GroupNumber(acc, d), rest);
        UsedRest(s);
        FourDigits(acc, g, Used(rest));
      } else {
        assert s == g;
        LastGroupReads(acc, g);
      }
    }
  }

  lemma UsedNothing()
    ensures Used([]) == [] && Surplus(0) == 1
  {}

  lemma LastGroupReads(acc: nat, g: string)
    requires LegalGroup(g) && Legal(g)
    ensures Number(acc, Decode(g)) == Digits(acc, Used(g)) / Surplus(|Used(g)|)
  {
    hide DecodeGroup, NextDigit, GroupNumber, Digits, Number;
    var d := DecodeGroup(g);
    OneGroup(g);
    assert d + [] == d;
    NumberOfGroup(acc, d, []);
    NumberOfNone(GroupNumber(acc, d));
    GroupReads(acc, g);
    FewDigits(acc, g);
  }

  lemma NumberOfNone(acc: nat)
    ensures Number(acc, []) == acc
  {}

  lemma UsedRest(s: string)
    requires Legal(s) && |s| > 4
    ensures Used(s) == s[..4] + Used(s[4..]) && Surplus(|Used(s)|) == Surplus(|Used(s[4..])|)
    ensures s[2] != PAD && s[3] != PAD
  {
    LegalParts(s);
    assert |s| % 4 == 0 && |s| >= 8;
    hide Legal, LegalGroup;
    SameGroupPlace(|Used(s[4..])|, 4);
  }

  lemma FewDigits(acc: nat, g: string)
    requires |g| == 4
    ensures Digits(acc, g[..2]) == NextDigit(NextDigit(acc, g[0]), g[1])
    ensures Digits(acc, g[..3]) == NextDigit(NextDigit(NextDigit(acc, g[0]), g[1]), g[2])
    ensures Digits(acc, g) == NextDigit(NextDigit(NextDigit(NextDigit(acc, g[0]), g[1]), g[2]), g[3])
  {
    hide NextDigit;
    FourDigits(acc, g, []);
    assert g + [] == g;
    assert g[..2][1..][1..] == [] && g[..3][1..][1..][1..] == [];
    Digits1(acc, g[..2]);
    Digits1(NextDigit(acc, g[0]), g[..2][1..]);
    Digits1(acc, g[..3]);
    Digits1(NextDigit(acc, g[0]), g[..3][1..]);
    Digits1(NextDigit(NextDigit(acc, g[0]), g[1]), g[..3][1..][1..]);
  }

  /** What one group of characters contributes. */
  lemma GroupReads(acc: nat, g: string)
    requires LegalGroup(g)
    ensures var two := NextDigit(NextDigit(acc, g[0]), g[1]);
            GroupNumber(acc, DecodeGroup(g))
            == if g[2] == PAD then two / 16
               else if g[3] == PAD then NextDigit(two, g[2]) / 4
               else NextDigit(NextDigit(two, g[2]), g[3])
  {
    hide Find, DigitValue;
    AlphabetExact(g[0], 0);
    AlphabetExact(g[1], 0);
    AlphabetExact(g[2], 0);
    AlphabetExact(g[3], 0);
    var p, q := Find(g[0]), Find(g[1]);
    if g[2] == PAD {
      BitsOf(acc, p, q, 0, 0);
    } else if g[3] == PAD {
      BitsOf(acc, p, q, Find(g[2]), 0);
    } else {
      BitsOf(acc, p, q, Find(g[2]), Find(g[3]));
    }
  }

  lemma BitsOf(acc: nat, p: sextet, q: sextet, r: sextet, t: sextet)
    ensures ((acc * 64 + p) * 64 + q) / 16 == acc * 256 + (p * 4 + q / 16)
    ensures (((acc * 64 + p) * 64 + q) * 64 + r) / 4 == (acc * 256 + (p * 4 + q / 16)) * 256 + (q % 16 * 16 + r / 4)
    ensures (((acc * 64 + p) * 64 + q) * 64 + r) * 64 + t
         == ((acc * 256 + (p * 4 + q / 16)) * 256 + (q % 16 * 16 + r / 4)) * 256 + (r % 4 * 64 + t)
  {}
}
