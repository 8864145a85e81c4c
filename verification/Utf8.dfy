/**
 * UTF-8 (section 3 of RFC 3629) and the size cut of sanitize_injected_content in
 * crates/amplihack-cli/src/auto_mode_append.rs.
 */
module Utf8 {

  newtype Byte = b: int | 0 <= b < 256

  /** The code points of str are the Unicode scalar values, Dafny's char. */
  function EncodeChar(c: char): (bs: seq<Byte>)
    ensures 1 <= |bs| <= 4
    ensures !IsContinuation(bs[0]) && forall i :: 0 < i < |bs| ==> IsContinuation(bs[i])
  {
    var n := c as int;
    if n < 0x80 then [n as Byte]
    else if n < 0x800 then [(0xC0 + n / 0x40) as Byte, Tail(n)]
    else if n < 0x10000 then [(0xE0 + n / 0x1000) as Byte, Tail(n / 0x40), Tail(n)]
    else [(0xF0 + n / 0x40000) as Byte, Tail(n / 0x1000), Tail(n / 0x40), Tail(n)]
  }

  function Tail(n: nat): (b: Byte)
    ensures IsContinuation(b)
  {
    (0x80 + n % 0x40) as Byte
  }

  predicate IsContinuation(b: Byte) {
    0x80 <= b < 0xC0
  }

  /** The code point that one to four bytes stand for: the bits of the lead byte, then six of each further byte. */
  function Decode(bs: seq<Byte>): int
    requires 1 <= |bs| <= 4
  {
    match |bs|
    case 1 => bs[0] as int
    case 2 => (bs[0] as int - 0xC0) * 0x40 + Bits(bs[1])
    case 3 => ((bs[0] as int - 0xE0) * 0x40 + Bits(bs[1])) * 0x40 + Bits(bs[2])
    case _ => (((bs[0] as int - 0xF0) * 0x40 + Bits(bs[1])) * 0x40 + Bits(bs[2])) * 0x40 + Bits(bs[3])
  }

  function Bits(b: Byte): int {
    b as int - 0x80
  }

  /** Lead bytes tell how many bytes follow. */
  predicate LeadFits(b: Byte, size: nat) {
    match size
    case 1 => b < 0x80
    case 2 => 0xC0 <= b < 0xE0
    case 3 => 0xE0 <= b < 0xF0
    case _ => size == 4 && 0xF0 <= b < 0xF8
  }

  /** The largest code point of each size, plus one. */
  function SizeLimit(size: nat): int {
    match size
    case 0 => 0
    case 1 => 0x80
    case 2 => 0x800
    case 3 => 0x10000
    case _ => 0x110000
  }

  /** bs is a lead byte and as many further bytes as it asks for, the fewest that the code point needs. */
  predicate Encodes(bs: seq<Byte>, n: int) {
    && 1 <= |bs| <= 4 && LeadFits(bs[0], |bs|) && (forall i :: 0 < i < |bs| ==> IsContinuation(bs[i]))
    && Decode(bs) == n && SizeLimit(|bs| - 1) <= n < SizeLimit(|bs|)
  }

  lemma CharEncodes(c: char)
    ensures Encodes(EncodeChar(c), c as int)
  {
    var n := c as int;
    assert n == n / 0x40 * 0x40 + n % 0x40 && n / 0x40 == n / 0x1000 * 0x40 + n / 0x40 % 0x40;
    assert n / 0x1000 == n / 0x40000 * 0x40 + n / 0x1000 % 0x40;
  }

  /** No other bytes encode a character: the forms of section 3 of RFC 3629, shortest form only. */
  lemma {:induction false} EncodeExactly(c: char, bs: seq<Byte>)
    ensures EncodeChar(c) == bs <==> Encodes(bs, c as int)
  {
    CharEncodes(c);
    if Encodes(bs, c as int) {
      var e := EncodeChar(c);
      SizesApart(|e|, |bs|, c as int);
      DecodeInjective(e, bs);
    }
  }

  lemma SizesApart(k: nat, m: nat, n: int)
    requires 1 <= k <= 4 && 1 <= m <= 4
    requires SizeLimit(k - 1) <= n < SizeLimit(k) && SizeLimit(m - 1) <= n < SizeLimit(m)
    ensures k == m
  {
  }

  predicate SixBits(x: int) {
    0 <= x < 0x40
  }

  lemma DigitsSame(p: int, x: int, q: int, y: int)
    requires p * 0x40 + x == q * 0x40 + y && SixBits(x) && SixBits(y)
    ensures p == q && x == y
  {
  }

  /** Numerals of three and four digits in base 64 are equal digit by digit. */
  lemma ThreeSame(p: int, x: int, y: int, q: int, u: int, v: int)
    requires SixBits(x) && SixBits(y) && SixBits(u) && SixBits(v)
    requires (p * 0x40 + x) * 0x40 + y == (q * 0x40 + u) * 0x40 + v
    ensures p == q && x == u && y == v
  {
    DigitsSame(p * 0x40 + x, y, q * 0x40 + u, v);
    DigitsSame(p, x, q, u);
  }

  lemma FourSame(p: int, x: int, y: int, z: int, q: int, u: int, v: int, w: int)
    requires SixBits(x) && SixBits(y) && SixBits(z) && SixBits(u) && SixBits(v) && SixBits(w)
    requires ((p * 0x40 + x) * 0x40 + y) * 0x40 + z == ((q * 0x40 + u) * 0x40 + v) * 0x40 + w
    ensures p == q && x == u && y == v && z == w
  {
    DigitsSame((p * 0x40 + x) * 0x40 + y, z, (q * 0x40 + u) * 0x40 + v, w);
    ThreeSame(p, x, y, q, u, v);
  }

  lemma DecodeInjective(a: seq<Byte>, b: seq<Byte>)
    requires 1 <= |a| <= 4 && |a| == |b| && Decode(a) == Decode(b)
    requires forall i :: 0 < i < |a| ==> IsContinuation(a[i]) && IsContinuation(b[i])
    ensures a == b
  {
    forall i | 0 < i < |a| ensures SixBits(Bits(a[i])) && SixBits(Bits(b[i])) {}
    match |a|
    case 1 =>
    case 2 => DigitsSame(a[0] as int - 0xC0, Bits(a[1]), b[0] as int - 0xC0, Bits(b[1]));
    case 3 => ThreeSame(a[0] as int - 0xE0, Bits(a[1]), Bits(a[2]), b[0] as int - 0xE0, Bits(b[1]), Bits(b[2]));
    case _ =>
      FourSame(a[0] as int - 0xF0, Bits(a[1]), Bits(a[2]), Bits(a[3]),
               b[0] as int - 0xF0, Bits(b[1]), Bits(b[2]), Bits(b[3]));
  }

  /** The bytes of a str. */
  function Encode(s: string): seq<Byte> {
    if s == [] then [] else EncodeChar(s[0]) + Encode(s[1..])
  }

  /** str::len counts bytes. */
  function ByteLength(s: string): nat {
    |Encode(s)|
  }

  /** str::is_char_boundary as the standard library computes it: from the byte at the index. */
  predicate IsCharBoundary(bs: seq<Byte>, i: nat) {
    i == 0 || i == |bs| || (i < |bs| && !IsContinuation(bs[i]))
  }

  /** Index i is the end of the encoding of the first k code points. */
  predicate EndsPrefix(s: string, i: nat, k: nat) {
    k <= |s| && i == |Encode(s[..k])|
  }

  lemma {:induction false} EncodeConcat(s: string, t: string)
    ensures Encode(s + t) == Encode(s) + Encode(t)
  {
    if s == [] {
      assert s + t == t;
    } else {
      assert (s + t)[1..] == s[1..] + t;
      EncodeConcat(s[1..], t);
    }
  }

  lemma {:induction false} EncodeSplit(s: string, k: nat)
    requires k <= |s|
    ensures Encode(s) == Encode(s[..k]) + Encode(s[k..])
  {
    assert s == s[..k] + s[k..];
    EncodeConcat(s[..k], s[k..]);
  }

  /** The prefix whose encoding covers byte i, and where in the next code point i falls. */
  lemma {:induction false} Locate(s: string, i: nat) returns (k: nat)
    requires i < |Encode(s)|
    ensures k < |s| && |Encode(s[..k])| <= i < |Encode(s[..k])| + |EncodeChar(s[k])|
  {
    if i < |EncodeChar(s[0])| {
      k := 0;
    } else {
      k := Locate(s[1..], i - |EncodeChar(s[0])|);
      assert s[..k + 1] == [s[0]] + s[1..][..k];
      assert s[..k + 1][1..] == s[1..][..k];
      k := k + 1;
    }
  }

  /** The byte test finds exactly the ends of encoded prefixes. */
  lemma {:induction false} BoundaryExactly(s: string, i: nat)
    requires i <= |Encode(s)|
    ensures IsCharBoundary(Encode(s), i) <==> exists k: nat :: EndsPrefix(s, i, k)
  {
    if i == |Encode(s)| {
      assert s[..|s|] == s && EndsPrefix(s, i, |s|);
    } else {
      var k := Locate(s, i);
      EncodeSplit(s, k);
      var at := |Encode(s[..k])|;
      assert Encode(s[k..])[i - at] == EncodeChar(s[k])[i - at];
      assert Encode(s)[i] == EncodeChar(s[k])[i - at];
      if i == at { assert EndsPrefix(s, i, k); }
      forall j | EndsPrefix(s, i, j) ensures i == at {
        if j <= k {
          PrefixGrows(s, j, k);
        } else {
          PrefixGrows(s, k + 1, j);
          PrefixStep(s, k);
        }
      }
      if IsCharBoundary(Encode(s), i) && i == 0 { assert s[..0] == [] && EndsPrefix(s, 0, 0); }
    }
  }

  lemma PrefixStep(s: string, k: nat)
    requires k < |s|
    ensures |Encode(s[..k + 1])| == |Encode(s[..k])| + |EncodeChar(s[k])|
  {
    assert s[..k + 1] == s[..k] + [s[k]];
    EncodeConcat(s[..k], [s[k]]);
    assert Encode([s[k]]) == EncodeChar(s[k]) + Encode([]);
  }

  lemma PrefixGrows(s: string, j: nat, k: nat)
    requires j <= k <= |s|
    ensures |Encode(s[..j])| <= |Encode(s[..k])|
  {
    assert s[..k] == s[..j] + s[j..k];
    EncodeConcat(s[..j], s[j..k]);
  }

  /** A boundary lies within three bytes below any index. */
  lemma {:induction false} BoundaryNearby(s: string, i: nat) returns (b: nat)
    requires i <= |Encode(s)|
    ensures b <= i <= b + 3 && IsCharBoundary(Encode(s), b)
  {
    if i == |Encode(s)| {
      b := i;
    } else {
      var k := Locate(s, i);
      b := |Encode(s[..k])|;
      EncodeSplit(s, k);
      assert s[k..][0] == s[k] && EndsPrefix(s, b, k);
      BoundaryExactly(s, b);
    }
  }

  // ----- the cut -----

  const MAX_INJECTED_CONTENT_SIZE: nat := 50 * 1024

  const TRUNCATION_NOTE: string := "\n\n[Content truncated due to size limit]"

  /** The first n bytes of the encoding of s encode its first k code points. */
  ghost predicate KeepsPrefix(s: string, n: nat, k: nat) {
    n <= |Encode(s)| && k <= |s| && Encode(s)[..n] == Encode(s[..k])
  }

  /**
   * The loop that moves `end` down to a boundary: at most three steps, to the
   * greatest boundary not above the start, keeping the encoding of a prefix.
   */
  method SnapToBoundary(content: string, start: nat) returns (end: nat)
    requires start <= ByteLength(content)
    ensures end <= start <= end + 3
    ensures IsCharBoundary(Encode(content), end)
    ensures forall b :: end < b <= start ==> !IsCharBoundary(Encode(content), b)
    ensures exists k: nat :: KeepsPrefix(content, end, k)
  {
    var bytes := Encode(content);
    ghost var near := BoundaryNearby(content, start);
    end := start;
    while end > 0 && !IsCharBoundary(bytes, end)
      invariant near <= end <= start
      invariant forall b :: end < b <= start ==> !IsCharBoundary(bytes, b)
    {
      end := end - 1;
    }
    BoundaryExactly(content, end);
    var k: nat :| EndsPrefix(content, end, k);
    EncodeSplit(content, k);
    assert KeepsPrefix(content, end, k);
  }

  /** Cut at half the limit, then append the note. */
  method CutAndNote(content: string, limit: nat, note: string) returns (kept: seq<Byte>)
    requires ByteLength(content) > limit
    ensures exists k: nat :: CutAt(content, limit, k) && kept == Encode(content[..k] + note)
  {
    var end := SnapToBoundary(content, limit / 2);
    kept := Encode(content)[..end] + Encode(note);
    ghost var k: nat :| KeepsPrefix(content, end, k);
    EncodeConcat(content[..k], note);
    LongestPrefix(content, limit / 2, end, k);
  }

  /** The longest prefix of at most n bytes. */
  ghost predicate Longest(content: string, n: nat, k: nat) {
    k <= |content| && ByteLength(content[..k]) <= n && forall j :: k < j <= |content| ==> n < ByteLength(content[..j])
  }

  /** The first k code points are kept: the longest prefix of at most half the limit, at most three bytes less. */
  ghost predicate CutAt(content: string, limit: nat, k: nat) {
    Longest(content, limit / 2, k) && limit / 2 <= ByteLength(content[..k]) + 3
  }

  /** The prefix that ends at the greatest boundary is the longest one that fits. */
  lemma LongestPrefix(content: string, n: nat, end: nat, k: nat)
    requires end <= n <= ByteLength(content) && KeepsPrefix(content, end, k)
    requires forall b :: end < b <= n ==> !IsCharBoundary(Encode(content), b)
    ensures Longest(content, n, k)
  {
    forall j | k < j <= |content| ensures n < ByteLength(content[..j]) {
      PrefixGrows(content, k + 1, j);
      PrefixStep(content, k);
      var b := |Encode(content[..j])|;
      if b <= n {
        assert EndsPrefix(content, b, j);
        BoundaryExactly(content, b);
      }
    }
  }

  /** sanitize_injected_content up to the redactions, on the bytes of the content. */
  method CutToSize(content: string) returns (kept: seq<Byte>)
    ensures ByteLength(content) <= 51200 ==> kept == Encode(content)
    ensures ByteLength(content) > 51200 ==>
      exists k: nat :: CutAt(content, 51200, k) && kept == Encode(content[..k] + TRUNCATION_NOTE)
    ensures |kept| <= 51200
  {
    if ByteLength(content) <= MAX_INJECTED_CONTENT_SIZE {
      kept := Encode(content);
    } else {
      kept := CutAndNote(content, MAX_INJECTED_CONTENT_SIZE, TRUNCATION_NOTE);
      NotedFits(content);
    }
  }

  lemma NotedFits(content: string)
    ensures forall k: nat :: CutAt(content, MAX_INJECTED_CONTENT_SIZE, k) ==>
      |Encode(content[..k] + TRUNCATION_NOTE)| <= MAX_INJECTED_CONTENT_SIZE
  {
    EncodeSize(TRUNCATION_NOTE);
    var size := ByteLength(TRUNCATION_NOTE);
    assert size <= 4 * 39;
    forall k: nat | CutAt(content, MAX_INJECTED_CONTENT_SIZE, k)
      ensures |Encode(content[..k] + TRUNCATION_NOTE)| <= MAX_INJECTED_CONTENT_SIZE
    {
      EncodeConcat(content[..k], TRUNCATION_NOTE);
    }
  }

  lemma {:induction false} EncodeSize(s: string)
    ensures |s| <= ByteLength(s) <= 4 * |s|
  {
    if s != [] { EncodeSize(s[1..]); }
  }
}
