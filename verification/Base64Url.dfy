/**
The base64url codec of src/utils/jwt_util.cpp.

The reference is section 4 of RFC 4648: three octets and four six-bit values are two readings of
one 24-bit group. The two methods keep the source's counters, small arrays and masks; they are
proved against that reference, and the round trips are proved about the reference.
 */
module Base64Url {
  import opened Strings

  type byte = bv8
  type Sextet = v: bv8 | v < 64

  /** A character of a `std::string` as an `unsigned char`. */
  function Octet(c: char): byte {
    if c as int < 256 then c as int as bv8 else 0
  }

  // ---------------------------------------------------------------- alphabet

  const UPPER := "ABCDEFGHIJKLMNOPQRSTUVWXYZ"
  const LOWER := "abcdefghijklmnopqrstuvwxyz"
  const REST := "0123456789+/"

  /** `base64_chars`. */
  const TABLE: string := UPPER + LOWER + REST

  /** The substitution made on the encoder's finished text. */
  function ToUrl(c: char): char {
    if c == '+' then '-' else if c == '/' then '_' else c
  }

  /** The substitution made on the decoder's input. */
  function FromUrl(c: char): char {
    if c == '-' then '+' else if c == '_' then '/' else c
  }

  /** `isalnum` in the C locale. */
  predicate IsAlnum(c: char) {
    '0' <= c <= '9' || 'A' <= c <= 'Z' || 'a' <= c <= 'z'
  }

  /** A character the decoder's loop reads past: the URL alphabet and the plain one. */
  predicate Accepted(c: char) {
    IsAlnum(c) || c == '+' || c == '/' || c == '-' || c == '_'
  }

  /** The alphabet of section 5 of RFC 4648. */
  predicate IsUrlChar(c: char) {
    IsAlnum(c) || c == '-' || c == '_'
  }

  /** The character code at position `i` of the table. */
  function Code(i: nat): int
    requires i < 64
  {
    if i < 26 then 65 + i else if i < 52 then 71 + i else if i < 62 then i - 4 else if i == 62 then 43 else 47
  }

  lemma UpperAt(i: nat)
    requires i < 26
    ensures |UPPER| == 26 && UPPER[i] as int == 65 + i
  {}

  lemma LowerAt(i: nat)
    requires i < 26
    ensures |LOWER| == 26 && LOWER[i] as int == 97 + i
  {}

  lemma RestAt(i: nat)
    requires i < 12
    ensures |REST| == 12 && REST[i] as int == Code(i + 52)
  {}

  /** The 64 characters are where their codes say. */
  ghost predicate IsTable(t: string) {
    |t| == 64 && forall i | 0 <= i < 64 :: t[i] as int == Code(i)
  }

  lemma ConcatIsTable(u: string, l: string, r: string)
    requires |u| == |l| == 26 && |r| == 12
    requires forall k | 0 <= k < 26 :: u[k] as int == 65 + k
    requires forall k | 0 <= k < 26 :: l[k] as int == 97 + k
    requires forall k | 0 <= k < 12 :: r[k] as int == Code(k + 52)
    ensures IsTable(u + l + r)
  {}

  lemma TableIsTable()
    ensures IsTable(TABLE)
  {
    forall k | 0 <= k < 26 ensures |UPPER| == 26 && UPPER[k] as int == 65 + k { UpperAt(k); }
    forall k | 0 <= k < 26 ensures |LOWER| == 26 && LOWER[k] as int == 97 + k { LowerAt(k); }
    forall k | 0 <= k < 12 ensures |REST| == 12 && REST[k] as int == Code(k + 52) { RestAt(k); }
    ConcatIsTable(UPPER, LOWER, REST);
  }

  predicate InTable(c: char) {
    IsAlnum(c) || c == '+' || c == '/'
  }

  lemma TableHolds(t: string, c: char)
    requires IsTable(t) && InTable(c)
    ensures c in t
  {
    var i := if 'A' <= c <= 'Z' then c as int - 65 else if 'a' <= c <= 'z' then c as int - 71
             else if '0' <= c <= '9' then c as int + 4 else if c == '+' then 62 else 63;
    assert t[i] as int == c as int;
  }

  lemma NarrowIndex(k: nat)
    requires k < 256
    ensures (k as bv8) as int == k && (k < 64 ==> k as bv8 < 64)
  {}

  /** Where a table holds `c`. */
  function FindIn(t: string, c: char): (v: Sextet)
    requires IsTable(t) && InTable(c)
    ensures t[v as int] == c
  {
    TableHolds(t, c);
    var k := FindChar(t, c).value;
    NarrowIndex(k);
    k as bv8
  }

  lemma FindInInverts(t: string, v: Sextet)
    requires IsTable(t)
    ensures InTable(t[v as int]) && FindIn(t, t[v as int]) == v
  {
    var i := v as int;
    var j := FindChar(t, t[i]).value;
    assert Code(i) == Code(j);
  }

  /** `base64_chars[v]`. */
  function TableChar(v: Sextet): char {
    TableIsTable();
    TABLE[v as int]
  }

  /** `base64_chars.find(c)`, for a character of the table. */
  function TableFind(c: char): Sextet
    requires InTable(c)
  {
    TableIsTable();
    FindIn(TABLE, c)
  }

  /** The six-bit value the decoder reads from an accepted character. */
  function Value(c: char): Sextet
    requires Accepted(c)
  {
    TableFind(FromUrl(c))
  }

  /** The character the encoder emits for a six-bit value. */
  function Emitted(v: Sextet): char {
    ToUrl(TableChar(v))
  }

  lemma ValueOfEmitted(v: Sextet)
    ensures IsUrlChar(Emitted(v)) && Value(Emitted(v)) == v
  {
    TableIsTable();
    FindInInverts(TABLE, v);
  }

  lemma EmittedOfValue(c: char)
    requires Accepted(c)
    ensures Emitted(Value(c)) == c <==> IsUrlChar(c)
  {
    TableIsTable();
    assert TableChar(Value(c)) == FromUrl(c);
  }

  // ---------------------------------------------------------------- 24-bit groups

  /** Three octets side by side. */
  function Group(a: byte, b: byte, c: byte): bv24 {
    ((a as bv24) << 16) | ((b as bv24) << 8) | (c as bv24)
  }

  /** Four six-bit values side by side. */
  function Join(v: Sextet, w: Sextet, x: Sextet, y: Sextet): bv24 {
    ((v as bv24) << 18) | ((w as bv24) << 12) | ((x as bv24) << 6) | (y as bv24)
  }

  /** The six-bit reading of a group, most significant first. */
  function SextetsOf(n: bv24): (v: seq<Sextet>)
    ensures |v| == 4
  {
    [(n >> 18) as bv8, ((n >> 12) & 63) as bv8, ((n >> 6) & 63) as bv8, (n & 63) as bv8]
  }

  /** The octet reading of a group, most significant first. */
  function OctetsOf(n: bv24): (o: seq<byte>)
    ensures |o| == 3
  {
    [(n >> 16) as bv8, ((n >> 8) & 255) as bv8, (n & 255) as bv8]
  }

  lemma GroupReadings(n: bv24)
    ensures var v := SextetsOf(n); Join(v[0], v[1], v[2], v[3]) == n
    ensures var o := OctetsOf(n); Group(o[0], o[1], o[2]) == n
  {}

  lemma GroupOctets(a: byte, b: byte, c: byte)
    ensures OctetsOf(Group(a, b, c)) == [a, b, c]
  {}

  lemma JoinSextets(v: Sextet, w: Sextet, x: Sextet, y: Sextet)
    ensures SextetsOf(Join(v, w, x, y)) == [v, w, x, y]
  {}

  /** The encoder's masks read the group's six-bit values. */
  lemma EncoderMasks(a: byte, b: byte, c: byte)
    ensures SextetsOf(Group(a, b, c)) == [(a & 0xfc) >> 2, ((a & 0x03) << 4) + ((b & 0xf0) >> 4),
                                          ((b & 0x0f) << 2) + ((c & 0xc0) >> 6), c & 0x3f]
  {}

  /** The decoder's masks and shifts. */
  function FirstOctet(v: byte, w: byte): byte { (v << 2) + ((w & 0x30) >> 4) }
  function SecondOctet(w: byte, x: byte): byte { ((w & 0xf) << 4) + ((x & 0x3c) >> 2) }
  function ThirdOctet(x: byte, y: byte): byte { ((x & 0x3) << 6) + y }

  /** The decoder's masks read the group's octets. */
  lemma DecoderMasks(v: Sextet, w: Sextet, x: Sextet, y: Sextet)
    ensures OctetsOf(Join(v, w, x, y)) == [FirstOctet(v, w), SecondOctet(w, x), ThirdOctet(x, y)]
  {}

  /** The six-bit values of an octet sequence; a short last group is padded with zero bits. */
  function Sextets(b: seq<byte>): (v: seq<Sextet>) {
    if b == [] then []
    else if |b| == 1 then SextetsOf(Group(b[0], 0, 0))[..2]
    else if |b| == 2 then SextetsOf(Group(b[0], b[1], 0))[..3]
    else SextetsOf(Group(b[0], b[1], b[2])) + Sextets(b[3..])
  }

  /** The octets of a sequence of six-bit values; the bits of an incomplete last octet are dropped. */
  function Octets(v: seq<Sextet>): (b: seq<byte>) {
    if |v| <= 1 then []
    else if |v| == 2 then OctetsOf(Join(v[0], v[1], 0, 0))[..1]
    else if |v| == 3 then OctetsOf(Join(v[0], v[1], v[2], 0))[..2]
    else OctetsOf(Join(v[0], v[1], v[2], v[3])) + Octets(v[4..])
  }

  lemma {:induction false} OctetsOfSextets(b: seq<byte>)
    ensures Octets(Sextets(b)) == b
  {
    hide Join, Group, SextetsOf, OctetsOf;
    if |b| == 1 {
      ShortGroup1(b[0]);
    } else if |b| == 2 {
      ShortGroup2(b[0], b[1]);
    } else if |b| >= 3 {
      OctetsOfSextets(b[3..]);
      var n := Group(b[0], b[1], b[2]);
      GroupReadings(n);
      GroupOctets(b[0], b[1], b[2]);
      assert Sextets(b)[4..] == Sextets(b[3..]);
      assert b == [b[0], b[1], b[2]] + b[3..];
    }
  }

  lemma ShortGroup1(a: byte)
    ensures var v := SextetsOf(Group(a, 0, 0)); OctetsOf(Join(v[0], v[1], 0, 0))[..1] == [a]
  {}

  lemma ShortGroup2(a: byte, b: byte)
    ensures var v := SextetsOf(Group(a, b, 0)); OctetsOf(Join(v[0], v[1], v[2], 0))[..2] == [a, b]
  {}

  /** Section 3.5 of RFC 4648: the length is possible and the pad bits of the last value are zero. */
  predicate CanonicalTail(v: seq<Sextet>) {
    && |v| % 4 != 1
    && (|v| % 4 == 2 ==> v[|v| - 1] & 0xf == 0)
    && (|v| % 4 == 3 ==> v[|v| - 1] & 0x3 == 0)
  }

  /** Re-encoding gives back exactly the canonical sequences. */
  lemma {:induction false} SextetsOfOctets(v: seq<Sextet>)
    ensures Sextets(Octets(v)) == v <==> CanonicalTail(v)
  {
    if |v| < 4 {
      ShortSequence(v);
    } else {
      SextetsOfOctets(v[4..]);
      FullGroupReencodes(v);
      FullGroupCanonical(v);
    }
  }

  lemma FromFourth(v: seq<Sextet>, s: seq<Sextet>, rest: seq<Sextet>)
    requires |v| >= 4 && s == [v[0], v[1], v[2], v[3]] + rest
    ensures s == v <==> rest == v[4..]
  {
    CommonPrefix([v[0], v[1], v[2], v[3]], rest, v[4..]);
    assert v == [v[0], v[1], v[2], v[3]] + v[4..];
  }

  lemma OctetsOfFullGroup(v: seq<Sextet>)
    requires |v| >= 4
    ensures Octets(v) == OctetsOf(Join(v[0], v[1], v[2], v[3])) + Octets(v[4..])
  {
    hide Join, OctetsOf;
  }

  lemma FullGroupReencodes(v: seq<Sextet>)
    requires |v| >= 4
    ensures Sextets(Octets(v)) == v <==> Sextets(Octets(v[4..])) == v[4..]
  {
    hide Join, Group, SextetsOf, OctetsOf, Octets, Sextets;
    var o := OctetsOf(Join(v[0], v[1], v[2], v[3]));
    OctetsOfFullGroup(v);
    JoinReencodes(v[0], v[1], v[2], v[3]);
    SextetsOfGroup(o, Octets(v[4..]));
    FromFourth(v, Sextets(Octets(v)), Sextets(Octets(v[4..])));
  }

  lemma JoinReencodes(v: Sextet, w: Sextet, x: Sextet, y: Sextet)
    ensures var o := OctetsOf(Join(v, w, x, y)); SextetsOf(Group(o[0], o[1], o[2])) == [v, w, x, y]
  {
    JoinSextets(v, w, x, y);
    GroupReadings(Join(v, w, x, y));
  }

  lemma CommonPrefix<T>(p: seq<T>, a: seq<T>, b: seq<T>)
    ensures p + a == p + b <==> a == b
  {
    assert (p + a)[|p|..] == a && (p + b)[|p|..] == b;
  }

  lemma SextetsOfGroup(o: seq<byte>, b: seq<byte>)
    requires |o| == 3
    ensures Sextets(o + b) == SextetsOf(Group(o[0], o[1], o[2])) + Sextets(b)
  {
    assert (o + b)[3..] == b;
  }

  lemma FullGroupCanonical(v: seq<Sextet>)
    requires |v| >= 4
    ensures CanonicalTail(v) <==> CanonicalTail(v[4..])
  {
    assert |v| % 4 == |v[4..]| % 4;
    if |v| > 4 {
      assert v[4..][|v[4..]| - 1] == v[|v| - 1];
    }
  }

  lemma ShortSequence(v: seq<Sextet>)
    requires |v| < 4
    ensures Sextets(Octets(v)) == v <==> CanonicalTail(v)
  {
    hide Join, Group, SextetsOf, OctetsOf;
    if |v| == 2 {
      ShortSequence2(v);
    } else if |v| == 3 {
      ShortSequence3(v);
    }
  }

  lemma ShortSequence2(v: seq<Sextet>)
    requires |v| == 2
    ensures Sextets(Octets(v)) == v <==> v[1] & 0xf == 0
  {
    hide Join, Group, SextetsOf, OctetsOf;
    var s := SextetsOf(Group(OctetsOf(Join(v[0], v[1], 0, 0))[0], 0, 0));
    ShortTail2(v[0], v[1]);
    assert Sextets(Octets(v)) == [s[0], s[1]];
  }

  lemma ShortTail2(v: Sextet, w: Sextet)
    ensures var s := SextetsOf(Group(OctetsOf(Join(v, w, 0, 0))[0], 0, 0));
            s[0] == v && (s[1] == w <==> w & 0xf == 0)
  {}

  lemma ShortSequence3(v: seq<Sextet>)
    requires |v| == 3
    ensures Sextets(Octets(v)) == v <==> v[2] & 0x3 == 0
  {
    hide Join, Group, SextetsOf, OctetsOf;
    var o := OctetsOf(Join(v[0], v[1], v[2], 0));
    var s := SextetsOf(Group(o[0], o[1], 0));
    ShortTail3(v[0], v[1], v[2]);
    assert Sextets(Octets(v)) == [s[0], s[1], s[2]];
  }

  lemma ShortTail3(v: Sextet, w: Sextet, x: Sextet)
    ensures var o := OctetsOf(Join(v, w, x, 0)); var s := SextetsOf(Group(o[0], o[1], 0));
            s[0] == v && s[1] == w && (s[2] == x <==> x & 0x3 == 0)
  {
    var o := OctetsOf(Join(v, w, x, 0));
    var s := SextetsOf(Group(o[0], o[1], 0));
    assert s[0] == v;
    assert s[1] == w;
    assert s[2] == x <==> x & 0x3 == 0;
  }

  // ---------------------------------------------------------------- text

  predicate AllAccepted(s: string) {
    forall k | 0 <= k < |s| :: Accepted(s[k])
  }

  predicate AllUrlChars(s: string) {
    forall k | 0 <= k < |s| :: IsUrlChar(s[k])
  }

  /** Where the decoder stops reading: at the first character it does not accept. */
  function AcceptedPrefix(s: string): (p: string)
    ensures p <= s && AllAccepted(p)
    ensures |p| < |s| ==> !Accepted(s[|p|])
  {
    if s == "" || !Accepted(s[0]) then ""
    else [s[0]] + AcceptedPrefix(s[1..])
  }

  function Values(s: string): (v: seq<Sextet>)
    requires AllAccepted(s)
    ensures |v| == |s|
  {
    seq(|s|, i requires 0 <= i < |s| => Value(s[i]))
  }

  /** The encoding of an octet sequence. */
  function UrlText(b: seq<byte>): string {
    Map(Emitted, Sextets(b))
  }

  /** The octets a text decodes to. */
  function UrlBytes(s: string): seq<byte> {
    Octets(Values(AcceptedPrefix(s)))
  }

  lemma AllAcceptedIsPrefix(s: string)
    requires AllAccepted(s)
    ensures AcceptedPrefix(s) == s
  {
    var p := AcceptedPrefix(s);
    assert |p| == |s|;
  }

  lemma UrlTextIsUrl(b: seq<byte>)
    ensures AllUrlChars(UrlText(b))
  {
    forall k | 0 <= k < |UrlText(b)| ensures IsUrlChar(UrlText(b)[k]) {
      ValueOfEmitted(Sextets(b)[k]);
    }
  }

  /** Decoding the encoding of any octet sequence gives the sequence back. */
  lemma RoundTrip(b: seq<byte>)
    ensures UrlBytes(UrlText(b)) == b
  {
    hide Emitted, Value, Sextets, Octets;
    UrlTextIsUrl(b);
    var t := UrlText(b);
    AllAcceptedIsPrefix(t);
    forall k | 0 <= k < |t| ensures Values(t)[k] == Sextets(b)[k] {
      ValueOfEmitted(Sextets(b)[k]);
    }
    assert Values(t) == Sextets(b);
    OctetsOfSextets(b);
  }

  /** A text is the encoding of something: URL alphabet, possible length, zero pad bits. */
  predicate IsCanonical(s: string) {
    AllUrlChars(s) && CanonicalTail(Values(s))
  }

  /** Re-encoding what a text decodes to gives the text back exactly for canonical texts. */
  lemma ReencodingIsCanonical(s: string)
    ensures UrlText(UrlBytes(s)) == s <==> IsCanonical(s)
  {
    hide Emitted, Value, Sextets, Octets, CanonicalTail;
    var v := Values(AcceptedPrefix(s));
    SextetsOfOctets(v);
    if AllUrlChars(s) {
      AllAcceptedIsPrefix(s);
      EmittedValues(s);
      if Sextets(Octets(v)) != v && Map(Emitted, Sextets(Octets(v))) == s {
        EmittedInjective(Sextets(Octets(v)), v);
      }
    } else {
      UrlTextIsUrl(UrlBytes(s));
    }
  }

  lemma EmittedValues(s: string)
    requires AllUrlChars(s)
    ensures Map(Emitted, Values(s)) == s
  {
    forall k | 0 <= k < |s| ensures Map(Emitted, Values(s))[k] == s[k] {
      EmittedOfValue(s[k]);
    }
  }

  lemma EmittedInjective(v: seq<Sextet>, w: seq<Sextet>)
    requires Map(Emitted, v) == Map(Emitted, w)
    ensures v == w
  {
    hide Emitted, Value;
    assert |v| == |Map(Emitted, v)| && |w| == |Map(Emitted, w)|;
    forall k | 0 <= k < |v| ensures v[k] == w[k] {
      ValueOfEmitted(v[k]);
      ValueOfEmitted(w[k]);
      assert Emitted(v[k]) == Map(Emitted, v)[k] == Map(Emitted, w)[k] == Emitted(w[k]);
    }
  }

  // ---------------------------------------------------------------- the two loops

  lemma {:induction false} SextetsAppend(x: seq<byte>, y: seq<byte>)
    requires |x| % 3 == 0
    ensures Sextets(x + y) == Sextets(x) + Sextets(y)
  {
    hide Group, SextetsOf;
    if x == [] {
      assert x + y == y;
    } else {
      SextetsAppend(x[3..], y);
      assert (x + y)[3..] == x[3..] + y;
    }
  }

  lemma {:induction false} OctetsAppend(v: seq<Sextet>, w: seq<Sextet>)
    requires |v| % 4 == 0
    ensures Octets(v + w) == Octets(v) + Octets(w)
  {
    hide Join, OctetsOf;
    if v == [] {
      assert v + w == w;
    } else {
      OctetsAppend(v[4..], w);
      assert (v + w)[4..] == v[4..] + w;
    }
  }

  function Plain(v: seq<Sextet>): string {
    Map(TableChar, v)
  }

  lemma PlainAppend(v: seq<Sextet>, w: seq<Sextet>)
    ensures Plain(v + w) == Plain(v) + Plain(w)
  {}

  lemma PlainToUrl(v: seq<Sextet>)
    ensures Map(ToUrl, Plain(v)) == Map(Emitted, v)
    ensures Plain([]) == []
  {}

  /** The plain base64 text of a stretch of octets. */
  ghost function TextIn(b: seq<byte>, lo: nat, hi: nat): string {
    if lo <= hi <= |b| then Plain(Sextets(b[lo..hi])) else ""
  }

  /** Octets are encoded in groups of three. */
  ghost predicate Grouped(n: int) {
    n % 3 == 0
  }

  lemma NextGroup(n: int)
    requires Grouped(n)
    ensures Grouped(n + 3)
  {}

  lemma EncodedSoFar(b: seq<byte>, lo: nat, hi: nat)
    requires lo <= hi <= |b| && Grouped(lo)
    ensures TextIn(b, 0, hi) == TextIn(b, 0, lo) + TextIn(b, lo, hi)
  {
    hide Sextets, Plain;
    assert b[0..hi] == b[0..lo] + b[lo..hi];
    SextetsAppend(b[0..lo], b[lo..hi]);
    PlainAppend(Sextets(b[0..lo]), Sextets(b[lo..hi]));
  }

  lemma NothingToEncode(b: seq<byte>, hi: nat)
    requires hi <= |b|
    ensures TextIn(b, hi, hi) == ""
  {
    assert b[hi..hi] == [];
    PlainToUrl([]);
  }

  lemma AllEncoded(b: seq<byte>)
    ensures Map(ToUrl, TextIn(b, 0, |b|)) == UrlText(b)
  {
    assert b[0..|b|] == b;
    PlainToUrl(Sextets(b));
  }

  lemma NothingGrouped()
    ensures Grouped(0)
  {}

  /** `char_array_3[i++] = *(bytes_to_encode++)`. */
  method Collect(octets: array<byte>, i: nat, b: seq<byte>, next: nat)
    requires i < octets.Length && i <= next < |b| && octets[..i] == b[next - i..next]
    modifies octets
    ensures octets[..i + 1] == b[next - i..next + 1]
  {
    octets[i] := b[next];
    assert octets[..i + 1] == octets[..i] + [b[next]];
  }

  /** Zeros behind the octets of a short group. */
  method PadZeros(octets: array<byte>, i: nat)
    requires i <= octets.Length == 3
    modifies octets
    ensures octets[..i] == old(octets[..i]) && forall k | i <= k < 3 :: octets[k] == 0
  {
    for j := i to 3
      invariant octets[..i] == old(octets[..i])
      invariant forall k | i <= k < j :: octets[k] == 0
    {
      octets[j] := 0;
    }
  }

  /** `Base64UrlEncode`: three octets are collected, then four characters appended. */
  method Base64UrlEncode(bytes: seq<byte>) returns (ret: string)
    ensures ret == UrlText(bytes)
  {
    hide TextIn, UrlText, Grouped;
    ret := "";
    var i, next := 0, 0;
    NothingGrouped();
    var octets, group := new byte[3], new byte[4];
    NothingToEncode(bytes, 0);
    while next < |bytes|
      invariant next <= |bytes| && 0 <= i < 3 && i <= next && Grouped(next - i)
      invariant octets[..i] == bytes[next - i..next]
      invariant ret == TextIn(bytes, 0, next - i)
    {
      Collect(octets, i, bytes, next);
      i, next := i + 1, next + 1;
      if i == 3 {
        EncodedSoFar(bytes, next - 3, next);
        NextGroup(next - 3);
        ret := AppendGroup(ret, octets, group, 3, bytes, next);
        i := 0;
      }
    }
    EncodedSoFar(bytes, next - i, next);
    if i != 0 {
      PadZeros(octets, i);
      ret := AppendGroup(ret, octets, group, i, bytes, next);
    } else {
      NothingToEncode(bytes, next);
    }
    AllEncoded(bytes);
    ret := Substituted(ret, ToUrl);
  }

  /** Packing `char_array_3`, whose first `i` octets are data, and appending `i + 1` characters. */
  method AppendGroup(before: string, octets: array<byte>, group: array<byte>, i: nat,
                     ghost b: seq<byte>, ghost hi: nat)
    returns (ret: string)
    requires octets.Length == 3 && group.Length == 4 && 1 <= i <= 3
    requires i <= hi <= |b| && octets[..i] == b[hi - i..hi]
    requires forall k | i <= k < 3 :: octets[k] == 0
    modifies group
    ensures ret == before + TextIn(b, hi - i, hi)
  {
    hide TableChar, Sextets, SextetsOf, Group;
    ghost var v := Sextets(octets[..i]);
    SextetsOfPadded(octets[..], i);
    assert octets[..][..i] == octets[..i];
    Spread(octets, group);
    ret := before;
    for j := 0 to i + 1
      invariant ret == before + Plain(v[..j])
    {
      assert group[..][j] == v[j];
      ret := ret + [TableChar(group[j])];
      assert v[..j + 1] == v[..j] + [v[j]];
    }
    assert v[..i + 1] == v;
  }

  lemma SextetsOfPadded(b: seq<byte>, i: nat)
    requires |b| == 3 && 1 <= i <= 3 && forall k | i <= k < 3 :: b[k] == 0
    ensures Sextets(b[..i]) == SextetsOf(Group(b[0], b[1], b[2]))[..i + 1]
  {
    hide Group, SextetsOf;
    assert i == 3 ==> Sextets(b[3..]) == [];
  }

  /** The encoder's masks and shifts. */
  method Spread(octets: array<byte>, group: array<byte>)
    requires octets.Length == 3 && group.Length == 4
    modifies group
    ensures group[..] == SextetsOf(Group(octets[0], octets[1], octets[2]))
  {
    hide Group, SextetsOf;
    EncoderMasks(octets[0], octets[1], octets[2]);
    group[0] := (octets[0] & 0xfc) >> 2;
    group[1] := ((octets[0] & 0x03) << 4) + ((octets[1] & 0xf0) >> 4);
    group[2] := ((octets[1] & 0x0f) << 2) + ((octets[2] & 0xc0) >> 6);
    group[3] := octets[2] & 0x3f;
  }

  /** The `for (char& c : ...)` loops. */
  method Substituted(text: string, f: char -> char) returns (ret: string)
    ensures ret == Map(f, text)
  {
    ret := text;
    for j := 0 to |text|
      invariant |ret| == |text|
      invariant forall k | 0 <= k < j :: ret[k] == f(text[k])
      invariant forall k | j <= k < |text| :: ret[k] == text[k]
    {
      ret := ret[j := f(ret[j])];
    }
  }

  /** What the decoder's loop condition asks of a character once '-' and '_' are replaced. */
  predicate Readable(c: char) {
    c != '=' && (IsAlnum(c) || c == '+' || c == '/')
  }

  /** The octets of a stretch of accepted text. */
  ghost function OctetsIn(s: string, lo: nat, hi: nat): seq<byte> {
    if lo <= hi <= |s| && AllAccepted(s[lo..hi]) then Octets(Values(s[lo..hi])) else []
  }

  /** The first `hi` characters are accepted, and the array starts with the last ones from `lo`, substituted. */
  ghost predicate Holds(held: seq<byte>, s: string, lo: nat, hi: nat) {
    && lo <= hi <= |s| && hi - lo <= |held| && lo % 4 == 0
    && (forall k | 0 <= k < hi :: Accepted(s[k]))
    && (forall k | lo <= k < hi :: held[k - lo] == Octet(FromUrl(s[k])))
  }

  lemma HoldsNext(held: seq<byte>, s: string, lo: nat, hi: nat, c: char)
    requires Holds(held, s, lo, hi) && hi < |s| && hi - lo < |held| && c == FromUrl(s[hi]) && Readable(c)
    ensures Holds(held[hi - lo := Octet(c)], s, lo, hi + 1)
  {
    hide Octet;
  }

  lemma DecodedSoFar(held: seq<byte>, s: string, lo: nat, hi: nat)
    requires Holds(held, s, lo, hi)
    ensures OctetsIn(s, 0, hi) == OctetsIn(s, 0, lo) + OctetsIn(s, lo, hi)
  {
    hide Octets, Value, Octet;
    assert AllAccepted(s[0..hi]) && AllAccepted(s[0..lo]) && AllAccepted(s[lo..hi]);
    assert Values(s[0..hi]) == Values(s[0..lo]) + Values(s[lo..hi]);
    OctetsAppend(Values(s[0..lo]), Values(s[lo..hi]));
  }

  lemma StopsHere(held: seq<byte>, s: string, lo: nat, hi: nat)
    requires Holds(held, s, lo, hi) && (hi < |s| ==> !Readable(FromUrl(s[hi])))
    ensures OctetsIn(s, 0, hi) == UrlBytes(s)
  {
    hide Octets, Value, Octet;
    assert s[0..hi] == s[..hi];
    StopsAtPrefix(s, hi);
  }

  lemma {:induction false} StopsAtPrefix(s: string, n: nat)
    requires n <= |s| && AllAccepted(s[..n]) && (n < |s| ==> !Accepted(s[n]))
    ensures AcceptedPrefix(s) == s[..n]
  {
    if n > 0 {
      assert Accepted(s[..n][0]);
      StopsAtPrefix(s[1..], n - 1);
    }
  }

  lemma NothingHeld(held: seq<byte>, s: string, hi: nat)
    requires hi <= |s|
    ensures OctetsIn(s, hi, hi) == []
    ensures Holds(held, s, 0, 0)
  {
    assert s[hi..hi] == "" && Values("") == [];
  }

  /** `Base64UrlDecode`: the text is turned back to plain base64, padded, and read four characters at a time. */
  method Base64UrlDecode(input: string) returns (ret: seq<byte>)
    ensures ret == UrlBytes(input)
  {
    hide Octet, Holds, OctetsIn, UrlBytes, IsAlnum;
    var encoded := Substituted(input, FromUrl);
    encoded := Padded(encoded);
    var left, i, at := |encoded|, 0, 0;
    var group, octets := new byte[4], new byte[3];
    ret := [];
    NothingHeld(group[..], input, 0);
    while left != 0 && Readable(encoded[at])
      invariant at + left == |encoded| && at <= |input| && 0 <= i < 4 && i <= at && (at - i) % 4 == 0
      invariant Holds(group[..], input, at - i, at)
      invariant ret == OctetsIn(input, 0, at - i)
    {
      left := left - 1;
      HoldsNext(group[..], input, at - i, at, encoded[at]);
      ghost var held := group[..];
      group[i] := Octet(encoded[at]);
      assert group[..] == held[i := Octet(encoded[at])];
      i, at := i + 1, at + 1;
      if i == 4 {
        DecodedSoFar(group[..], input, at - 4, at);
        ret := AppendOctets(ret, group, octets, 4, input, at);
        i := 0;
      }
    }
    StopsHere(group[..], input, at - i, at);
    DecodedSoFar(group[..], input, at - i, at);
    if i != 0 {
      ret := AppendOctets(ret, group, octets, i, input, at);
    } else {
      NothingHeld(group[..], input, at);
    }
  }

  ghost function Missing(n: nat): (k: nat)
    ensures k == 0 <==> n % 4 == 0
  {
    (4 - n % 4) % 4
  }

  lemma MissingFalls(n: nat)
    requires n % 4 != 0
    ensures Missing(n + 1) == Missing(n) - 1
  {}

  /** `while (encoded.length() % 4 != 0) encoded += "="`. */
  method Padded(text: string) returns (encoded: string)
    ensures text <= encoded && |encoded| % 4 == 0
    ensures forall k | |text| <= k < |encoded| :: encoded[k] == '='
  {
    hide Missing;
    encoded := text;
    while |encoded| % 4 != 0
      invariant text <= encoded
      invariant forall k | |text| <= k < |encoded| :: encoded[k] == '='
      decreases Missing(|encoded|)
    {
      MissingFalls(|encoded|);
      encoded := encoded + "=";
    }
  }

  /** Looking up `i` held characters, unpacking them, and appending one octet fewer. */
  method AppendOctets(before: seq<byte>, group: array<byte>, octets: array<byte>, i: nat,
                      ghost s: string, ghost hi: nat)
    returns (ret: seq<byte>)
    requires octets.Length == 3 && group.Length == 4 && 1 <= i <= 4
    requires i <= hi && Holds(group[..], s, hi - i, hi)
    modifies group, octets
    ensures ret == before + OctetsIn(s, hi - i, hi)
    ensures i == 4 ==> Holds(group[..], s, hi, hi)
  {
    hide Octets, Octet, FirstOctet, SecondOctet, ThirdOctet, IsAlnum, Values;
    ghost var t := s[hi - i..hi];
    LookUp(group, i, t);
    MaskedOctets(group[..], Values(t));
    octets[0] := FirstOctet(group[0], group[1]);
    octets[1] := SecondOctet(group[1], group[2]);
    octets[2] := ThirdOctet(group[2], group[3]);
    assert octets[..] == [octets[0], octets[1], octets[2]];
    ret := WithFront(before, octets, i - 1);
  }

  /** `ret += char_array_3[j]`, for the first `n` of them. */
  method WithFront(before: seq<byte>, octets: array<byte>, n: nat) returns (ret: seq<byte>)
    requires n <= octets.Length
    ensures ret == before + octets[..][..n]
  {
    ret := before;
    for j := 0 to n
      invariant ret == before + octets[..][..j]
    {
      assert octets[..][..j + 1] == octets[..][..j] + [octets[j]];
      ret := ret + [octets[j]];
    }
  }

  /** `base64_chars.find`, for each of the `i` characters held. */
  method LookUp(group: array<byte>, i: nat, ghost t: string)
    requires i <= group.Length && |t| == i && AllAccepted(t)
    requires forall k | 0 <= k < i :: group[k] == Octet(FromUrl(t[k]))
    modifies group
    ensures forall k | 0 <= k < i :: group[k] == Values(t)[k]
  {
    hide TableFind, Octet, IsAlnum;
    for j := 0 to i
      invariant forall k | 0 <= k < j :: group[k] == Values(t)[k]
      invariant forall k | j <= k < i :: group[k] == Octet(FromUrl(t[k]))
    {
      CharAgain(FromUrl(t[j]));
      group[j] := TableFind(group[j] as int as char);
      assert group[j] == Values(t)[j];
    }
  }

  lemma CharAgain(c: char)
    requires InTable(c) || c as int < 256
    ensures Octet(c) as int as char == c
  {
    NarrowIndex(c as int);
  }

  /** Whatever is held behind the last value read, the octets appended are those of the values read. */
  lemma MaskedOctets(w: seq<byte>, v: seq<Sextet>)
    requires |w| == 4 && 1 <= |v| <= 4 && forall k | 0 <= k < |v| :: w[k] == v[k]
    ensures Octets(v) == [FirstOctet(w[0], w[1]), SecondOctet(w[1], w[2]), ThirdOctet(w[2], w[3])][..|v| - 1]
  {
    hide Join, OctetsOf, FirstOctet, SecondOctet, ThirdOctet;
    match |v|
    case 1 =>
    case 2 => DecoderMasks(v[0], v[1], 0, 0);
    case 3 => DecoderMasks(v[0], v[1], v[2], 0);
    case _ => DecoderMasks(v[0], v[1], v[2], v[3]); assert Octets(v[4..]) == [];
  }
}
