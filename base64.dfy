/**
  Base64 as `btoa` and `atob` apply it: the encoding of section 4 of RFC 4648
  (alphabet A-Z a-z 0-9 + /, '=' padding) and the "forgiving-base64 decode"
  algorithm of the WHATWG Infra Standard, which `atob` is defined by. The
  decoder removes ASCII whitespace, drops one or two trailing '=' only when the
  length is a multiple of four, rejects a remaining length of 4k+1 and any
  character outside the alphabet, and discards the leftover low bits of a
  final partial group.
 */
module Base64 {
  import opened Wrappers

  type Byte = x: int | 0 <= x < 256
  type Sextet = x: int | 0 <= x < 64

  const PadChar: char := '='

  predicate IsBase64Char(c: char) {
    ('A' <= c <= 'Z') || ('a' <= c <= 'z') || ('0' <= c <= '9') || c == '+' || c == '/'
  }

  predicate AllBase64(s: string) {
    forall i :: 0 <= i < |s| ==> IsBase64Char(s[i])
  }

  /** The character that stands for a 6-bit value. */
  function SextetChar(v: Sextet): (c: char)
    ensures IsBase64Char(c)
  {
    if v < 26 then (65 + v) as char
    else if v < 52 then (97 + v - 26) as char
    else if v < 62 then (48 + v - 52) as char
    else if v == 62 then '+'
    else '/'
  }

  /** The 6-bit value an alphabet character stands for. */
  function CharSextet(c: char): (v: Sextet)
    requires IsBase64Char(c)
    ensures SextetChar(v) == c
  {
    if 'A' <= c <= 'Z' then c as int - 65
    else if 'a' <= c <= 'z' then c as int - 97 + 26
    else if '0' <= c <= '9' then c as int - 48 + 52
    else if c == '+' then 62
    else 63
  }

  lemma SextetRoundTrip(v: Sextet)
    ensures CharSextet(SextetChar(v)) == v
  {
  }

  // ---------------------------------------------------------------- encoding

  /** One whole group: three bytes become four characters. */
  function EncodeGroup(a: Byte, b: Byte, c: Byte): (r: string)
    ensures |r| == 4 && AllBase64(r)
  {
    [SextetChar(a / 4), SextetChar((a % 4) * 16 + b / 16),
     SextetChar((b % 16) * 4 + c / 64), SextetChar(c % 64)]
  }

  /** Number of characters an unpadded encoding of n bytes takes. */
  function UnpaddedLength(n: nat): nat {
    4 * (n / 3) + (if n % 3 == 0 then 0 else n % 3 + 1)
  }

  /** The encoding without its '=' padding. */
  function Unpadded(s: seq<Byte>): (r: string)
    ensures |r| == UnpaddedLength(|s|)
    ensures AllBase64(r)
    decreases |s|
  {
    if |s| == 0 then []
    else if |s| == 1 then [SextetChar(s[0] / 4), SextetChar((s[0] % 4) * 16)]
    else if |s| == 2 then
      [SextetChar(s[0] / 4), SextetChar((s[0] % 4) * 16 + s[1] / 16), SextetChar((s[1] % 16) * 4)]
    else EncodeGroup(s[0], s[1], s[2]) + Unpadded(s[3..])
  }

  /** Number of '=' that close the encoding of n bytes. */
  function PadCount(n: nat): (k: nat)
    ensures k <= 2
  {
    if n % 3 == 1 then 2 else if n % 3 == 2 then 1 else 0
  }

  /** The '=' characters that close the encoding of n bytes. */
  function Padding(n: nat): (r: string)
    ensures |r| == PadCount(n)
    ensures forall i :: 0 <= i < |r| ==> r[i] == PadChar
  {
    if n % 3 == 1 then "==" else if n % 3 == 2 then "=" else ""
  }

  /** The unpadded length of a partial last group leaves 2 or 3 characters
      in it, and the padding fills it up to a whole group of four. */
  lemma EncodedLengths(n: nat)
    ensures UnpaddedLength(n) + PadCount(n) == 4 * ((n + 2) / 3)
    ensures (UnpaddedLength(n) + PadCount(n)) % 4 == 0
    ensures UnpaddedLength(n) % 4 == (if n % 3 == 0 then 0 else n % 3 + 1)
    ensures n % 3 != 0 ==> UnpaddedLength(n) >= n % 3 + 1
    ensures PadCount(n) > 0 ==> UnpaddedLength(n) >= 2
  {
    var q, m := n / 3, n % 3;
    assert n == 3 * q + m;
    var groups := q + (if m == 0 then 0 else 1);
    assert (n + 2) / 3 == groups;
    assert (4 * groups) % 4 == 0;
  }

  /** `btoa` on a byte string. */
  function Encode(s: seq<Byte>): (r: string)
    ensures |r| == 4 * ((|s| + 2) / 3)
    ensures forall i :: 0 <= i < |r| - PadCount(|s|) ==> IsBase64Char(r[i])
    ensures forall i :: |r| - PadCount(|s|) <= i < |r| ==> r[i] == PadChar
  {
    EncodedLengths(|s|);
    Unpadded(s) + Padding(|s|)
  }

  /** Encoding distributes over a split after a whole number of groups. */
  lemma {:induction false} UnpaddedAppend(a: seq<Byte>, b: seq<Byte>)
    requires |a| % 3 == 0
    ensures Unpadded(a + b) == Unpadded(a) + Unpadded(b)
    decreases |a|
  {
    if |a| == 0 {
      assert a + b == b;
    } else {
      var ab := a + b;
      assert ab[0] == a[0] && ab[1] == a[1] && ab[2] == a[2];
      assert ab[3..] == a[3..] + b;
      UnpaddedAppend(a[3..], b);
    }
  }

  lemma EncodeAppend(a: seq<Byte>, b: seq<Byte>)
    requires |a| % 3 == 0
    ensures Encode(a + b) == Encode(a) + Encode(b)
  {
    UnpaddedAppend(a, b);
    assert Padding(|a + b|) == Padding(|b|);
    assert Unpadded(a) + Padding(|a|) == Unpadded(a);
  }

  lemma EncodeOneGroup(a: Byte, b: Byte, c: Byte)
    ensures Encode([a, b, c]) == EncodeGroup(a, b, c)
  {
    assert [a, b, c][3..] == [];
  }

  // ---------------------------------------------------------------- decoding

  predicate IsAsciiWhitespace(c: char) {
    c == '\t' || c == '\n' || c == '\U{000C}' || c == '\r' || c == ' '
  }

  predicate NoWhitespace(s: string) {
    forall i :: 0 <= i < |s| ==> !IsAsciiWhitespace(s[i])
  }

  /** Step 1 of forgiving-base64 decode: drop ASCII whitespace. */
  function StripWhitespace(t: string): (r: string)
    ensures NoWhitespace(r)
    ensures |r| <= |t|
  {
    if |t| == 0 then []
    else if IsAsciiWhitespace(t[0]) then StripWhitespace(t[1..])
    else [t[0]] + StripWhitespace(t[1..])
  }

  /** Step 2: if the length is a multiple of four, drop one or two trailing '='. */
  function StripPadding(d: string): (r: string)
    ensures |r| <= |d| && |d| - |r| <= 2 && r == d[..|r|]
    ensures forall i :: |r| <= i < |d| ==> d[i] == PadChar
    ensures |r| < |d| ==> |d| % 4 == 0
    ensures |d| % 4 == 0 && |d| - |r| < 2 && |r| > 0 ==> r[|r| - 1] != PadChar
  {
    if |d| % 4 == 0 && |d| >= 2 && d[|d| - 1] == PadChar && d[|d| - 2] == PadChar then d[..|d| - 2]
    else if |d| % 4 == 0 && |d| >= 1 && d[|d| - 1] == PadChar then d[..|d| - 1]
    else d
  }

  function DecodeQuad(c0: char, c1: char, c2: char, c3: char): (r: seq<Byte>)
    requires IsBase64Char(c0) && IsBase64Char(c1) && IsBase64Char(c2) && IsBase64Char(c3)
    ensures |r| == 3
  {
    var v0, v1, v2, v3 := CharSextet(c0), CharSextet(c1), CharSextet(c2), CharSextet(c3);
    [v0 * 4 + v1 / 16, (v1 % 16) * 16 + v2 / 4, (v2 % 4) * 64 + v3]
  }

  /** Number of bytes an unpadded text of n characters decodes to. */
  function DecodedLength(n: nat): nat {
    3 * (n / 4) + (if n % 4 == 0 then 0 else n % 4 - 1)
  }

  /** Steps 5-7: turn validated characters into bytes, four at a time. */
  function DecodeBody(d: string): (r: seq<Byte>)
    requires AllBase64(d) && |d| % 4 != 1
    ensures |r| == DecodedLength(|d|)
    decreases |d|
  {
    if |d| == 0 then []
    else if |d| == 2 then [CharSextet(d[0]) * 4 + CharSextet(d[1]) / 16]
    else if |d| == 3 then
      [CharSextet(d[0]) * 4 + CharSextet(d[1]) / 16, (CharSextet(d[1]) % 16) * 16 + CharSextet(d[2]) / 4]
    else DecodeQuad(d[0], d[1], d[2], d[3]) + DecodeBody(d[4..])
  }

  /** `atob` on a text: the bytes it stands for, or None where `atob` throws. */
  function Decode(t: string): (r: Option<seq<Byte>>)
    ensures r.Some? <==> WellFormed(t)
    ensures r.Some? ==> |r.value| == DecodedLength(|StripPadding(StripWhitespace(t))|)
  {
    StripPaddingIff(StripWhitespace(t));
    var d := StripPadding(StripWhitespace(t));
    if |d| % 4 == 1 || !AllBase64(d) then None else Some(DecodeBody(d))
  }

  // ------------------------------------------------------------ round trip

  lemma DecodeEncodeGroup(a: Byte, b: Byte, c: Byte)
    ensures var g := EncodeGroup(a, b, c); DecodeQuad(g[0], g[1], g[2], g[3]) == [a, b, c]
  {
    var a1, a2, b1, b2, c1, c2 := a / 4, a % 4, b / 16, b % 16, c / 64, c % 64;
    assert (a2 * 16 + b1) / 16 == a2 && (a2 * 16 + b1) % 16 == b1;
    assert (b2 * 4 + c1) / 4 == b2 && (b2 * 4 + c1) % 4 == c1;
    SextetRoundTrip(a1);
    SextetRoundTrip(a2 * 16 + b1);
    SextetRoundTrip(b2 * 4 + c1);
    SextetRoundTrip(c2);
  }

  lemma DecodeOneByte(a: Byte)
    ensures DecodeBody(Unpadded([a])) == [a]
  {
    SextetRoundTrip(a / 4);
    SextetRoundTrip((a % 4) * 16);
  }

  lemma DecodeTwoBytes(a: Byte, b: Byte)
    ensures DecodeBody(Unpadded([a, b])) == [a, b]
  {
    var a1, a2, b1, b2 := a / 4, a % 4, b / 16, b % 16;
    var v0, v1, v2 := a1, a2 * 16 + b1, b2 * 4;
    assert v1 / 16 == a2 && v1 % 16 == b1 && v2 / 4 == b2;
    var u := Unpadded([a, b]);
    assert u == [SextetChar(v0), SextetChar(v1), SextetChar(v2)];
    SextetRoundTrip(v0);
    SextetRoundTrip(v1);
    SextetRoundTrip(v2);
    assert DecodeBody(u) == [v0 * 4 + v1 / 16, (v1 % 16) * 16 + v2 / 4];
  }

  /** Decoding peels one whole group off the front. */
  lemma DecodeBodyCons(g: string, rest: string)
    requires |g| == 4 && AllBase64(g) && AllBase64(rest) && |rest| % 4 != 1
    ensures AllBase64(g + rest) && |g + rest| % 4 != 1
    ensures DecodeBody(g + rest) == DecodeQuad(g[0], g[1], g[2], g[3]) + DecodeBody(rest)
  {
    var d := g + rest;
    assert d[4..] == rest;
    assert d[0] == g[0] && d[1] == g[1] && d[2] == g[2] && d[3] == g[3];
  }

  /** The encoding of three or more bytes is a whole group followed by the rest. */
  lemma UnpaddedCons(s: seq<Byte>)
    requires |s| >= 3
    ensures Unpadded(s) == EncodeGroup(s[0], s[1], s[2]) + Unpadded(s[3..])
  {
  }

  lemma DecodeUnpaddedStep(s: seq<Byte>)
    requires |s| >= 3
    requires AllBase64(Unpadded(s[3..])) && |Unpadded(s[3..])| % 4 != 1
    requires DecodeBody(Unpadded(s[3..])) == s[3..]
    ensures AllBase64(Unpadded(s)) && |Unpadded(s)| % 4 != 1
    ensures DecodeBody(Unpadded(s)) == s
  {
    var g := EncodeGroup(s[0], s[1], s[2]);
    var rest := Unpadded(s[3..]);
    UnpaddedCons(s);
    DecodeEncodeGroup(s[0], s[1], s[2]);
    DecodeBodyCons(g, rest);
    assert [s[0], s[1], s[2]] + s[3..] == s;
  }

  lemma {:induction false} DecodeUnpadded(s: seq<Byte>)
    ensures AllBase64(Unpadded(s)) && |Unpadded(s)| % 4 != 1
    ensures DecodeBody(Unpadded(s)) == s
    decreases |s|
  {
    if |s| == 0 {
    } else if |s| == 1 {
      assert s == [s[0]];
      DecodeOneByte(s[0]);
    } else if |s| == 2 {
      assert s == [s[0], s[1]];
      DecodeTwoBytes(s[0], s[1]);
    } else {
      DecodeUnpadded(s[3..]);
      DecodeUnpaddedStep(s);
    }
  }

  lemma {:induction false} StripWhitespaceNoop(t: string)
    requires NoWhitespace(t)
    ensures StripWhitespace(t) == t
  {
    if |t| > 0 {
      StripWhitespaceNoop(t[1..]);
      assert t == [t[0]] + t[1..];
    }
  }

  /** Text made only of the alphabet loses nothing to step 2. */
  lemma StripPaddingNoop(d: string)
    requires AllBase64(d)
    ensures StripPadding(d) == d
  {
    if |d| > 0 {
      assert IsBase64Char(d[|d| - 1]);
    }
  }

  /** Step 2 removes exactly the zero, one or two '=' that pad an alphabet-only
      body to a whole number of groups. */
  lemma StripPaddingOfPadded(u: string, p: string)
    requires AllBase64(u) && |p| <= 2 && (|u| + |p|) % 4 == 0
    requires forall i :: 0 <= i < |p| ==> p[i] == PadChar
    requires |p| > 0 ==> |u| >= 1
    ensures StripPadding(u + p) == u
  {
    var d := u + p;
    if |p| == 0 {
      assert d == u;
      StripPaddingNoop(u);
    } else if |p| == 1 {
      assert d[|d| - 1] == p[0] && d[|d| - 2] == u[|u| - 1];
      assert IsBase64Char(u[|u| - 1]);
      assert d[..|d| - 1] == u;
    } else {
      assert d[|d| - 1] == p[1] && d[|d| - 2] == p[0];
      assert d[..|d| - 2] == u;
    }
  }

  lemma StripPaddingOfEncode(s: seq<Byte>)
    ensures StripPadding(Encode(s)) == Unpadded(s)
  {
    EncodedLengths(|s|);
    StripPaddingOfPadded(Unpadded(s), Padding(|s|));
  }

  /** `atob(btoa(x)) == x` for every byte string. */
  lemma RoundTrip(s: seq<Byte>)
    ensures Decode(Encode(s)) == Some(s)
  {
    var e := Encode(s);
    assert NoWhitespace(e) by {
      forall i | 0 <= i < |e| ensures !IsAsciiWhitespace(e[i]) {
        if i < |e| - PadCount(|s|) {
          assert IsBase64Char(e[i]);
        }
      }
    }
    StripWhitespaceNoop(e);
    StripPaddingOfEncode(s);
    DecodeUnpadded(s);
  }

  /** `atob` also accepts an encoding whose padding was left off. */
  lemma DecodeAcceptsMissingPadding(s: seq<Byte>)
    ensures Decode(Unpadded(s)) == Some(s)
  {
    var u := Unpadded(s);
    EncodedLengths(|s|);
    StripWhitespaceNoop(u);
    StripPaddingNoop(u);
    DecodeUnpadded(s);
  }

  // ------------------------------------------------------- what is rejected

  /** The whitespace-free text `d` is `p` alphabet-free '=' at the end of
      an alphabet-only body whose length is not 4k+1; padding is only
      allowed on a length that is a multiple of four. */
  predicate PaddedBy(d: string, p: nat) {
    && p <= |d|
    && (p > 0 ==> |d| % 4 == 0)
    && (forall i :: |d| - p <= i < |d| ==> d[i] == PadChar)
    && AllBase64(d[..|d| - p])
    && (|d| - p) % 4 != 1
  }

  /** Declarative statement of which texts `atob` accepts. */
  predicate WellFormed(t: string) {
    var d := StripWhitespace(t);
    PaddedBy(d, 0) || PaddedBy(d, 1) || PaddedBy(d, 2)
  }

  /** Whatever step 2 keeps, when it passes steps 3 and 4, is a well-formed
      body followed by the padding that was dropped. */
  lemma StripPaddingSound(d: string)
    requires AllBase64(StripPadding(d)) && |StripPadding(d)| % 4 != 1
    ensures |StripPadding(d)| <= |d| && PaddedBy(d, |d| - |StripPadding(d)|)
  {
    var b := StripPadding(d);
    assert b == d[..|b|];
  }

  /** On a well-formed text step 2 drops exactly its padding. */
  lemma StripPaddingComplete(d: string, p: nat)
    requires p <= 2 && PaddedBy(d, p)
    ensures StripPadding(d) == d[..|d| - p]
  {
    var body := d[..|d| - p];
    if p == 0 {
      assert body == d;
      StripPaddingNoop(d);
    } else if p == 1 && |body| > 0 {
      assert IsBase64Char(body[|body| - 1]);
      assert d[|d| - 2] == body[|body| - 1];
    }
  }

  /** Steps 2-4 accept exactly the whitespace-free texts that are well-formed. */
  lemma StripPaddingIff(d: string)
    ensures AllBase64(StripPadding(d)) && |StripPadding(d)| % 4 != 1
            <==> PaddedBy(d, 0) || PaddedBy(d, 1) || PaddedBy(d, 2)
  {
    if AllBase64(StripPadding(d)) && |StripPadding(d)| % 4 != 1 {
      StripPaddingSound(d);
    }
    if PaddedBy(d, 0) {
      StripPaddingComplete(d, 0);
    } else if PaddedBy(d, 1) {
      StripPaddingComplete(d, 1);
    } else if PaddedBy(d, 2) {
      StripPaddingComplete(d, 2);
    }
  }

  lemma {:induction false} StripWhitespaceKeeps(t: string, i: nat)
    requires i < |t| && !IsAsciiWhitespace(t[i])
    ensures t[i] in StripWhitespace(t)
  {
    if i > 0 {
      StripWhitespaceKeeps(t[1..], i - 1);
    }
  }

  /** A character that is neither in the alphabet, nor '=', nor whitespace makes `atob` throw. */
  lemma DecodeRejectsForeignChar(t: string, i: nat)
    requires i < |t|
    requires !IsBase64Char(t[i]) && t[i] != PadChar && !IsAsciiWhitespace(t[i])
    ensures Decode(t) == None
  {
    StripWhitespaceKeeps(t, i);
    var d := StripWhitespace(t);
    var b := StripPadding(d);
    var j :| 0 <= j < |d| && d[j] == t[i];
    assert j < |b| && b[j] == t[i];
  }

  /** A '=' that is not among the last two characters makes `atob` throw. */
  lemma DecodeRejectsInnerPadding(t: string, i: nat)
    requires NoWhitespace(t)
    requires i + 2 < |t| && t[i] == PadChar
    ensures Decode(t) == None
  {
    StripWhitespaceNoop(t);
    var b := StripPadding(t);
    assert i < |b| && b[i] == PadChar;
  }

  /** A text of 4k+1 significant characters makes `atob` throw. */
  lemma DecodeRejectsBadLength(t: string)
    requires |StripWhitespace(t)| % 4 == 1
    ensures Decode(t) == None
  {
  }
}
