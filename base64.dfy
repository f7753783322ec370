/** The base64 encoder the emoji renderer uses for its PNG images: the
    alphabet and padding of section 4 of RFC 4648, produced by a bit
    accumulator that takes one byte at a time and emits six bits at a time. */
module Base64 {
  import opened Basics

  /** Six bits. */
  type Sextet = x: int | 0 <= x < 64

  /** The sextet value's character: A-Z, a-z, 0-9, '+', '/'. */
  function AlphabetChar(x: Sextet): (c: char)
    ensures IsBase64Char(c) && SextetOf(c) == x
  {
    if x < 26 then ('A' as int + x) as char
    else if x < 52 then ('a' as int + x - 26) as char
    else if x < 62 then ('0' as int + x - 52) as char
    else if x == 62 then '+'
    else '/'
  }

  /** kBase64Chars, written in eight pieces of eight. */
  const Alphabet: string := "ABCDEFGH" + "IJKLMNOP" + "QRSTUVWX" + "YZabcdef" + "ghijklmn" + "opqrstuv" + "wxyz0123" + "456789+/"

  /** The table and the character function agree. */
  lemma AlphabetTable(x: Sextet)
    ensures |Alphabet| == 64 && Alphabet[x] == AlphabetChar(x)
  {
    if x < 32 {
      if x < 16 {
        if x < 8 {} else {}
      } else {
        if x < 24 {} else {}
      }
    } else {
      if x < 48 {
        if x < 40 {} else {}
      } else {
        if x < 56 {} else {}
      }
    }
  }

  predicate IsBase64Char(c: char) {
    'A' <= c <= 'Z' || 'a' <= c <= 'z' || '0' <= c <= '9' || c == '+' || c == '/'
  }

  /** The sextet a character stands for: the inverse of AlphabetChar. */
  function SextetOf(c: char): Sextet
    requires IsBase64Char(c)
  {
    if 'A' <= c <= 'Z' then c as int - 'A' as int
    else if 'a' <= c <= 'z' then c as int - 'a' as int + 26
    else if '0' <= c <= '9' then c as int - '0' as int + 52
    else if c == '+' then 62
    else 63
  }

  /** Distinct characters stand for distinct sextets. */
  lemma SextetOfInjective(c: char, e: char)
    requires IsBase64Char(c) && IsBase64Char(e) && SextetOf(c) == SextetOf(e)
    ensures c == e
  {
  }

  // ---------------------------------------------------------------------
  // The encoding of section 4 of RFC 4648

  /** The four sextets of a group b0 b1 b2, most significant bits first.
      A missing byte reads as zero, which gives the zero-filled last
      sextet of an incomplete group. */
  function S0(b0: Byte): Sextet { b0 / 4 }
  function S1(b0: Byte, b1: Byte): Sextet { b0 % 4 * 16 + b1 / 16 }
  function S2(b1: Byte, b2: Byte): Sextet { b1 % 16 * 4 + b2 / 64 }
  function S3(b2: Byte): Sextet { b2 % 64 }

  /** Three bytes as four characters. */
  function Quad(b0: Byte, b1: Byte, b2: Byte): string {
    [AlphabetChar(S0(b0)), AlphabetChar(S1(b0, b1)), AlphabetChar(S2(b1, b2)), AlphabetChar(S3(b2))]
  }

  /** The characters already complete after the first bytes of a group. */
  function Lead(d: seq<Byte>): (s: string)
    requires |d| < 3
    ensures |s| == |d|
  {
    if |d| == 0 then []
    else if |d| == 1 then [AlphabetChar(S0(d[0]))]
    else [AlphabetChar(S0(d[0])), AlphabetChar(S1(d[0], d[1]))]
  }

  /** The full groups of three bytes, in order. */
  function Groups(d: seq<Byte>): (s: string)
    requires |d| % 3 == 0
    ensures 3 * |s| == 4 * |d| && |s| % 4 == 0
    decreases |d|
  {
    if d == [] then [] else Groups(d[..|d| - 3]) + Quad(d[|d| - 3], d[|d| - 2], d[|d| - 1])
  }

  /** The last one or two bytes: their complete characters, the zero-filled
      last sextet, and '=' to four characters. */
  function Final(d: seq<Byte>): (s: string)
    requires |d| < 3
    ensures |s| == if d == [] then 0 else 4
  {
    if |d| == 0 then []
    else if |d| == 1 then Lead(d) + [AlphabetChar(S1(d[0], 0)), '=', '=']
    else Lead(d) + [AlphabetChar(S2(d[1], 0)), '=']
  }

  function Encode(d: seq<Byte>): string {
    var full := |d| - |d| % 3;
    Groups(d[..full]) + Final(d[full..])
  }

  /** The number of '=' characters the encoding ends with. */
  function PadLength(n: nat): (p: nat)
    ensures p <= 2
  {
    if n % 3 == 1 then 2 else if n % 3 == 2 then 1 else 0
  }

  predicate AllBase64(s: string) {
    forall k :: 0 <= k < |s| ==> IsBase64Char(s[k])
  }

  lemma {:induction false} GroupsAlphabet(d: seq<Byte>)
    requires |d| % 3 == 0
    ensures AllBase64(Groups(d))
    decreases |d|
  {
    if d != [] {
      var g := Groups(d[..|d| - 3]);
      var q := Quad(d[|d| - 3], d[|d| - 2], d[|d| - 1]);
      GroupsAlphabet(d[..|d| - 3]);
      assert AllBase64(q);
      assert forall k :: 0 <= k < |g| + 4 ==> (g + q)[k] == if k < |g| then g[k] else q[k - |g|];
    }
  }

  /** The output has 4 * ceil(n / 3) characters, that is 3 * |s| = 4 * (n
      + pad); all are alphabet characters except a padding of pad = 2
      characters '=' when n mod 3 = 1, one when n mod 3 = 2 and none
      otherwise. An empty input gives "". */
  lemma EncodeShape(d: seq<Byte>)
    ensures var s := Encode(d);
            && 3 * |s| == 4 * (|d| + PadLength(|d|))
            && (d == [] ==> s == [])
            && AllBase64(s[..|s| - PadLength(|d|)])
            && (forall i :: |s| - PadLength(|d|) <= i < |s| ==> s[i] == '=')
  {
    var n := |d|;
    if n % 3 == 1 {
      ShapeOne(d);
    } else if n % 3 == 2 {
      ShapeTwo(d);
    } else {
      ShapeNone(d);
      var s := Encode(d);
      assert PadLength(n) == 0 && s[..|s| - 0] == s;
    }
  }

  lemma ShapeOne(d: seq<Byte>)
    requires |d| % 3 == 1
    ensures var s := Encode(d);
            && 3 * |s| == 4 * (|d| + PadLength(|d|))
            && AllBase64(s[..|s| - PadLength(|d|)])
            && (forall i :: |s| - PadLength(|d|) <= i < |s| ==> s[i] == '=')
  {
    var n := |d|;
    PhaseBack(n);
    var g, x := Groups(d[..n - 1]), d[n - 1];
    var a, b := AlphabetChar(S0(x)), AlphabetChar(S1(x, 0));
    EncodeOne(d);
    GroupsAlphabet(d[..n - 1]);
    PaddedShape(Encode(d), g, [a, b], 2, n);
    assert PadLength(n) == 2;
  }

  lemma ShapeTwo(d: seq<Byte>)
    requires |d| % 3 == 2
    ensures var s := Encode(d);
            && 3 * |s| == 4 * (|d| + PadLength(|d|))
            && AllBase64(s[..|s| - PadLength(|d|)])
            && (forall i :: |s| - PadLength(|d|) <= i < |s| ==> s[i] == '=')
  {
    var n := |d|;
    PhaseBack(n);
    var g, x, y := Groups(d[..n - 2]), d[n - 2], d[n - 1];
    var a, b, c := AlphabetChar(S0(x)), AlphabetChar(S1(x, y)), AlphabetChar(S2(y, 0));
    EncodeTwo(d);
    GroupsAlphabet(d[..n - 2]);
    PaddedShape(Encode(d), g, [a, b, c], 1, n);
    assert PadLength(n) == 1;
  }

  lemma ShapeNone(d: seq<Byte>)
    requires |d| % 3 == 0
    ensures var s := Encode(d);
            && 3 * |s| == 4 * |d|
            && (d == [] ==> s == [])
            && AllBase64(s)
  {
    EncodeNone(d);
    GroupsAlphabet(d);
  }

  /** Alphabet characters then p characters '='. */
  /** Whole groups g of n + p - 3 bytes, a tail t and p characters '='. */
  lemma PaddedShape(s: string, g: string, t: string, p: nat, n: int)
    requires s == (g + t) + Padding(p)
    requires AllBase64(g) && AllBase64(t)
    requires |t| + p == 4 && 3 * |g| == 4 * (n + p - 3)
    ensures 3 * |s| == 4 * (n + p)
    ensures AllBase64(s[..|s| - p])
    ensures forall i :: |s| - p <= i < |s| ==> s[i] == '='
  {
    assert s[..|s| - p] == g + t;
    assert forall k :: 0 <= k < |g| + |t| ==> (g + t)[k] == if k < |g| then g[k] else t[k - |g|];
  }

  /** The encoding of whole groups only. */
  lemma EncodeNone(d: seq<Byte>)
    requires |d| % 3 == 0
    ensures Encode(d) == Groups(d)
  {
    var n := |d|;
    assert n - n % 3 == n;
    assert d[..n] == d && d[n..] == [];
  }

  // ---------------------------------------------------------------------
  // Decoding, the inverse

  /** Four sextets as three bytes. */
  function Join(x0: Sextet, x1: Sextet, x2: Sextet, x3: Sextet): (b: seq<Byte>)
    ensures |b| == 3
  {
    var b0: Byte := x0 * 4 + x1 / 16;
    var b1: Byte := x1 % 16 * 16 + x2 / 4;
    var b2: Byte := x2 % 4 * 64 + x3;
    [b0, b1, b2]
  }

  /** Splitting 24 bits into sextets and joining them again is the identity. */
  lemma JoinSplit(b0: Byte, b1: Byte, b2: Byte)
    ensures Join(S0(b0), S1(b0, b1), S2(b1, b2), S3(b2)) == [b0, b1, b2]
  {
  }

  /** Both parts decoded, one after the other; None if either failed. */
  function Both(a: Option<seq<Byte>>, b: Option<seq<Byte>>): (r: Option<seq<Byte>>)
    ensures r.Some? <==> a.Some? && b.Some?
    ensures r.Some? ==> r.value == a.value + b.value
  {
    if a.Some? && b.Some? then Some(a.value + b.value) else None
  }

  /** A group of four alphabet characters back to three bytes. */
  function DecodeQuad(q: string): (r: Option<seq<Byte>>)
    requires |q| == 4
    ensures r.Some? <==> IsBase64Char(q[0]) && IsBase64Char(q[1]) && IsBase64Char(q[2]) && IsBase64Char(q[3])
    ensures r.Some? ==> |r.value| == 3
  {
    if IsBase64Char(q[0]) && IsBase64Char(q[1]) && IsBase64Char(q[2]) && IsBase64Char(q[3]) then
      Some(Join(SextetOf(q[0]), SextetOf(q[1]), SextetOf(q[2]), SextetOf(q[3])))
    else None
  }

  /** The last group: either a full group, or two alphabet characters and
      "==" for one byte, or three and "=" for two bytes. */
  function DecodeLast(q: string): (r: Option<seq<Byte>>)
    requires |q| == 4
    ensures r.Some? ==> |r.value| == if q[3] != '=' then 3 else if q[2] == '=' then 1 else 2
  {
    if q[3] != '=' then DecodeQuad(q)
    else if IsBase64Char(q[0]) && IsBase64Char(q[1]) then
      var x0, x1 := SextetOf(q[0]), SextetOf(q[1]);
      var b0: Byte := x0 * 4 + x1 / 16;
      if q[2] == '=' then Some([b0])
      else if IsBase64Char(q[2]) then
        var b1: Byte := x1 % 16 * 16 + SextetOf(q[2]) / 4;
        Some([b0, b1])
      else None
    else None
  }

  /** Full groups, front to back. */
  function DecodeGroups(s: string): (r: Option<seq<Byte>>)
    requires |s| % 4 == 0
    ensures r.Some? ==> 4 * |r.value| == 3 * |s|
    decreases |s|
  {
    if s == [] then Some([]) else Both(DecodeGroups(s[..|s| - 4]), DecodeQuad(s[|s| - 4..]))
  }

  /** Decoding: None unless s is a multiple of four characters, all in the
      alphabet except the '=' padding of the last group. */
  function Decode(s: string): (r: Option<seq<Byte>>)
    ensures r.Some? ==> |s| % 4 == 0
  {
    if |s| % 4 != 0 then None
    else if s == [] then Some([])
    else Both(DecodeGroups(s[..|s| - 4]), DecodeLast(s[|s| - 4..]))
  }

  lemma QuadRoundTrip(b0: Byte, b1: Byte, b2: Byte)
    ensures DecodeQuad(Quad(b0, b1, b2)) == Some([b0, b1, b2])
    ensures DecodeLast(Quad(b0, b1, b2)) == Some([b0, b1, b2])
  {
    JoinSplit(b0, b1, b2);
  }

  lemma FinalRoundTrip(d: seq<Byte>)
    requires 1 <= |d| < 3
    ensures DecodeLast(Final(d)) == Some(d)
  {
    if |d| == 2 {
      assert Final(d) == [AlphabetChar(S0(d[0])), AlphabetChar(S1(d[0], d[1])), AlphabetChar(S2(d[1], 0)), '='];
      assert d == [d[0], d[1]];
    } else {
      assert Final(d) == [AlphabetChar(S0(d[0])), AlphabetChar(S1(d[0], 0)), '=', '='];
      assert d == [d[0]];
    }
  }

  lemma {:induction false} GroupsRoundTrip(d: seq<Byte>)
    requires |d| % 3 == 0
    ensures DecodeGroups(Groups(d)) == Some(d)
    decreases |d|
  {
    if d != [] {
      var init := d[..|d| - 3];
      var b0, b1, b2 := d[|d| - 3], d[|d| - 2], d[|d| - 1];
      var g, q := Groups(init), Quad(b0, b1, b2);
      GroupsRoundTrip(init);
      QuadRoundTrip(b0, b1, b2);
      DecodeGroupsAppend(g, q);
      LastThree(d);
    }
  }

  /** Decoding one more full group appends its bytes. */
  lemma DecodeGroupsAppend(g: string, q: string)
    requires |g| % 4 == 0 && |q| == 4
    ensures DecodeGroups(g + q) == Both(DecodeGroups(g), DecodeQuad(q))
  {
    var s := g + q;
    assert s[..|s| - 4] == g;
    assert s[|s| - 4..] == q;
  }

  lemma LastThree(d: seq<Byte>)
    requires |d| >= 3
    ensures d[..|d| - 3] + [d[|d| - 3], d[|d| - 2], d[|d| - 1]] == d
  {
  }

  /** The encoding is lossless: decoding it gives the input back. */
  lemma EncodeRoundTrip(d: seq<Byte>)
    ensures Decode(Encode(d)) == Some(d)
  {
    var full := |d| - |d| % 3;
    if full == |d| {
      UnpaddedRoundTrip(d);
    } else {
      PaddedRoundTrip(d);
    }
  }

  lemma UnpaddedRoundTrip(d: seq<Byte>)
    requires |d| % 3 == 0
    ensures Decode(Encode(d)) == Some(d)
  {
    EncodeNone(d);
    if d != [] {
      PhaseBack(|d|);
      var init := d[..|d| - 3];
      var b0, b1, b2 := d[|d| - 3], d[|d| - 2], d[|d| - 1];
      var g, q := Groups(init), Quad(b0, b1, b2);
      assert Encode(d) == g + q;
      GroupsRoundTrip(init);
      QuadRoundTrip(b0, b1, b2);
      DecodeAppendLast(g, q);
      assert Decode(Encode(d)) == Some(init + [b0, b1, b2]);
      LastThree(d);
    }
  }

  lemma PaddedRoundTrip(d: seq<Byte>)
    requires |d| % 3 != 0
    ensures Decode(Encode(d)) == Some(d)
  {
    var full := |d| - |d| % 3;
    var g, t := Groups(d[..full]), d[full..];
    var f := Final(t);
    assert Encode(d) == g + f;
    GroupsRoundTrip(d[..full]);
    FinalRoundTrip(t);
    DecodeAppendLast(g, f);
    SplitAt(d, full);
  }

  /** Decoding full groups then a last group. */
  lemma DecodeAppendLast(g: string, f: string)
    requires |g| % 4 == 0 && |f| == 4
    ensures Decode(g + f) == Both(DecodeGroups(g), DecodeLast(f))
  {
    var s := g + f;
    assert s[..|s| - 4] == g;
    assert s[|s| - 4..] == f;
    assert |s| % 4 == 0 by {
      assert |s| == |g| + 4;
    }
    assert Decode(s) == Both(DecodeGroups(s[..|s| - 4]), DecodeLast(s[|s| - 4..]));
  }

  lemma SplitAt(d: seq<Byte>, k: nat)
    requires k <= |d|
    ensures d[..k] + d[k..] == d
  {
  }

  // ---------------------------------------------------------------------
  // encodeBase64

  /** The characters byte c completes, after byte prev, at a phase of the
      group: the first sextet, the second, or the last two. */
  function Completed(prev: Byte, c: Byte, phase: nat): string {
    if phase == 0 then [AlphabetChar(S0(c))]
    else if phase == 1 then [AlphabetChar(S1(prev, c))]
    else [AlphabetChar(S2(prev, c)), AlphabetChar(S3(c))]
  }

  /** The byte before byte i, or zero for the first. */
  function Prev(d: seq<Byte>, i: nat): Byte
    requires i <= |d|
  {
    if i == 0 then 0 else d[i - 1]
  }

  /** What the encoder has emitted after the first i bytes: each byte adds
      the characters it completes. */
  function Emitted(d: seq<Byte>, i: nat): string
    requires i <= |d|
  {
    if i == 0 then [] else Emitted(d, i - 1) + Completed(Prev(d, i - 1), d[i - 1], (i - 1) % 3)
  }

  /** Three bytes from a group boundary on complete exactly one group. */
  lemma EmittedGroup(d: seq<Byte>, j: nat)
    requires j + 3 <= |d| && j % 3 == 0
    ensures Emitted(d, j + 3) == Emitted(d, j) + Quad(d[j], d[j + 1], d[j + 2])
  {
    var x, y, z := d[j], d[j + 1], d[j + 2];
    EmittedTwoMore(d, j);
    NextPhase(j);
    NextPhase(j + 1);
    assert Emitted(d, j + 3) == Emitted(d, j + 2) + [AlphabetChar(S2(y, z)), AlphabetChar(S3(z))];
    Append22(Emitted(d, j), AlphabetChar(S0(x)), AlphabetChar(S1(x, y)), AlphabetChar(S2(y, z)), AlphabetChar(S3(z)));
  }

  /** The first two bytes of a group complete its first two characters. */
  lemma EmittedTwoMore(d: seq<Byte>, j: nat)
    requires j + 2 <= |d| && j % 3 == 0
    ensures Emitted(d, j + 2) == Emitted(d, j) + [AlphabetChar(S0(d[j])), AlphabetChar(S1(d[j], d[j + 1]))]
  {
    var e := Emitted(d, j);
    var a, b := AlphabetChar(S0(d[j])), AlphabetChar(S1(d[j], d[j + 1]));
    NextPhase(j);
    assert Emitted(d, j + 1) == e + [a];
    Snoc2(e, a, b);
  }

  /** The first byte of a group completes its first character. */
  lemma EmittedOneMore(d: seq<Byte>, j: nat)
    requires j + 1 <= |d| && j % 3 == 0
    ensures Emitted(d, j + 1) == Emitted(d, j) + [AlphabetChar(S0(d[j]))]
  {
  }

  /** At a group boundary the emitted characters are the full groups of
      the bytes so far. */
  lemma EmittedGroups(d: seq<Byte>, n: nat)
    requires n <= |d| && n % 3 == 0
    ensures Emitted(d, n) == Groups(d[..n])
  {
    var k := Thirds(n);
    EmittedFullGroups(d, k);
  }

  /** The same, by induction on the number k of full groups. */
  lemma {:induction false} EmittedFullGroups(d: seq<Byte>, k: nat)
    requires 3 * k <= |d|
    ensures Emitted(d, 3 * k) == Groups(d[..3 * k])
    decreases k
  {
    if k > 0 {
      var j := 3 * (k - 1);
      TripleMod(k - 1);
      EmittedFullGroups(d, k - 1);
      EmittedGroup(d, j);
      GroupsPrefix(d, j);
      assert j + 3 == 3 * k;
    }
  }

  /** The full groups of a prefix that ends a group: those of the shorter
      prefix, then the last group. */
  lemma GroupsPrefix(d: seq<Byte>, j: nat)
    requires j + 3 <= |d| && j % 3 == 0
    ensures Groups(d[..j + 3]) == Groups(d[..j]) + Quad(d[j], d[j + 1], d[j + 2])
  {
    var e := d[..j + 3];
    assert e[..j] == d[..j];
  }

  /** The encoding before its '=' padding: the emitted characters, then the
      zero-filled last sextet of an incomplete group. */
  function BeforePadding(d: seq<Byte>): string {
    var n := |d|;
    Emitted(d, n) + (
      if n % 3 == 1 then [AlphabetChar(S1(d[n - 1], 0))]
      else if n % 3 == 2 then [AlphabetChar(S2(d[n - 1], 0))]
      else [])
  }

  /** k characters '='. */
  function Padding(k: nat): (s: string)
    ensures |s| == k && forall i :: 0 <= i < k ==> s[i] == '='
  {
    if k == 0 then [] else Padding(k - 1) + ['=']
  }

  /** The encoding is the characters before the padding, then PadLength
      characters '=', four characters per group in all. */
  lemma PaddingCount(d: seq<Byte>)
    ensures Encode(d) == BeforePadding(d) + Padding(PadLength(|d|))
    ensures (|BeforePadding(d)| + PadLength(|d|)) % 4 == 0
  {
    if |d| % 3 == 1 {
      PaddingOne(d);
    } else if |d| % 3 == 2 {
      PaddingTwo(d);
    } else {
      PaddingNone(d);
    }
  }

  lemma PaddingNone(d: seq<Byte>)
    requires |d| % 3 == 0
    ensures Encode(d) == BeforePadding(d) + Padding(PadLength(|d|))
    ensures (|BeforePadding(d)| + PadLength(|d|)) % 4 == 0
  {
    var n := |d|;
    var g := Groups(d);
    EmittedGroups(d, n);
    EncodeNone(d);
    assert d[..n] == d;
    BeforeNone(d);
    assert PadLength(n) == 0 && Padding(0) == [];
    assert Encode(d) == g + [] && BeforePadding(d) == g;
  }

  lemma BeforeNone(d: seq<Byte>)
    requires |d| % 3 == 0
    ensures BeforePadding(d) == Emitted(d, |d|)
  {
    assert BeforePadding(d) == Emitted(d, |d|) + [];
  }

  lemma PaddingOne(d: seq<Byte>)
    requires |d| % 3 == 1
    ensures Encode(d) == BeforePadding(d) + Padding(PadLength(|d|))
    ensures (|BeforePadding(d)| + PadLength(|d|)) % 4 == 0
  {
    var n := |d|;
    PhaseBack(n);
    var g := Groups(d[..n - 1]);
    var ab := [AlphabetChar(S0(d[n - 1])), AlphabetChar(S1(d[n - 1], 0))];
    EmittedGroups(d, n - 1);
    EncodeOne(d);
    BeforeOneFull(d);
    assert PadLength(n) == 2;
    PaddedGroups(Encode(d), BeforePadding(d), g, ab, 2);
  }

  lemma PaddingTwo(d: seq<Byte>)
    requires |d| % 3 == 2
    ensures Encode(d) == BeforePadding(d) + Padding(PadLength(|d|))
    ensures (|BeforePadding(d)| + PadLength(|d|)) % 4 == 0
  {
    var n := |d|;
    PhaseBack(n);
    var g := Groups(d[..n - 2]);
    var x, y := d[n - 2], d[n - 1];
    var abc := [AlphabetChar(S0(x)), AlphabetChar(S1(x, y)), AlphabetChar(S2(y, 0))];
    EmittedGroups(d, n - 2);
    EncodeTwo(d);
    BeforeTwoFull(d);
    assert PadLength(n) == 1;
    PaddedGroups(Encode(d), BeforePadding(d), g, abc, 1);
  }

  /** An encoding made of whole groups g, a tail t and p characters '=',
      against the characters before the padding. */
  lemma PaddedGroups(enc: string, before: string, g: string, t: string, p: nat)
    requires enc == g + t + Padding(p) && before == g + t
    requires |g| % 4 == 0 && |t| + p == 4
    ensures enc == before + Padding(p)
    ensures (|before| + p) % 4 == 0
  {
    assert |before| + p == |g| + 4;
    AddFour(|g|);
  }

  lemma BeforeOneFull(d: seq<Byte>)
    requires |d| % 3 == 1
    ensures var n := |d|;
            BeforePadding(d) == Emitted(d, n - 1) + [AlphabetChar(S0(d[n - 1])), AlphabetChar(S1(d[n - 1], 0))]
  {
    var n := |d|;
    PhaseBack(n);
    var a, b := AlphabetChar(S0(d[n - 1])), AlphabetChar(S1(d[n - 1], 0));
    EmittedOneMore(d, n - 1);
    BeforeOne(d);
    Chain2(BeforePadding(d), Emitted(d, n), Emitted(d, n - 1), a, b);
  }

  lemma Chain2<T>(p: seq<T>, m: seq<T>, e: seq<T>, a: T, b: T)
    requires m == e + [a] && p == m + [b]
    ensures p == e + [a, b]
  {
    assert (e + [a]) + [b] == e + [a, b];
  }

  lemma BeforeTwoFull(d: seq<Byte>)
    requires |d| % 3 == 2
    ensures var n := |d|;
            BeforePadding(d) == Emitted(d, n - 2) + [AlphabetChar(S0(d[n - 2])), AlphabetChar(S1(d[n - 2], d[n - 1])), AlphabetChar(S2(d[n - 1], 0))]
  {
    var n := |d|;
    PhaseBack(n);
    var a, b, c := AlphabetChar(S0(d[n - 2])), AlphabetChar(S1(d[n - 2], d[n - 1])), AlphabetChar(S2(d[n - 1], 0));
    EmittedTwoMore(d, n - 2);
    BeforeTwo(d);
    Chain3(BeforePadding(d), Emitted(d, n), Emitted(d, n - 2), a, b, c);
  }

  lemma Chain3<T>(p: seq<T>, m: seq<T>, e: seq<T>, a: T, b: T, c: T)
    requires m == e + [a, b] && p == m + [c]
    ensures p == e + [a, b, c]
  {
    assert (e + [a, b]) + [c] == e + [a, b, c];
  }

  lemma AddFour(k: nat)
    ensures (k + 4) % 4 == k % 4
  {
  }

  /** The encoding of a last group of one byte x. */
  lemma EncodeOne(d: seq<Byte>)
    requires |d| % 3 == 1
    ensures var x := d[|d| - 1];
            Encode(d) == Groups(d[..|d| - 1]) + [AlphabetChar(S0(x)), AlphabetChar(S1(x, 0))] + Padding(2)
  {
    var n := |d|;
    assert d[n - 1..] == [d[n - 1]];
    assert Padding(2) == ['=', '='];
  }

  /** The encoding of a last group of two bytes x, y. */
  lemma EncodeTwo(d: seq<Byte>)
    requires |d| % 3 == 2
    ensures var x, y := d[|d| - 2], d[|d| - 1];
            Encode(d) == Groups(d[..|d| - 2]) + [AlphabetChar(S0(x)), AlphabetChar(S1(x, y)), AlphabetChar(S2(y, 0))] + Padding(1)
  {
    var n := |d|;
    assert d[n - 2..] == [d[n - 2], d[n - 1]];
    assert Padding(1) == ['='];
  }

  lemma BeforeOne(d: seq<Byte>)
    requires |d| % 3 == 1
    ensures BeforePadding(d) == Emitted(d, |d|) + [AlphabetChar(S1(d[|d| - 1], 0))]
  {
  }

  lemma BeforeTwo(d: seq<Byte>)
    requires |d| % 3 == 2
    ensures BeforePadding(d) == Emitted(d, |d|) + [AlphabetChar(S2(d[|d| - 1], 0))]
  {
  }

  lemma Append22<T>(e: seq<T>, a: T, b: T, c: T, f: T)
    ensures (e + [a, b]) + [c, f] == e + [a, b, c, f]
  {
  }

  lemma Snoc2<T>(e: seq<T>, a: T, b: T)
    ensures (e + [a]) + [b] == e + [a, b]
  {
  }

  function Pow2(k: nat): (p: nat)
    ensures p >= 1
  {
    if k == 0 then 1 else 2 * Pow2(k - 1)
  }

  /** (val >> shift) & 0x3F on a 32-bit int: the arithmetic shift floors,
      the mask keeps the low six bits of the two's complement. */
  function Bits6(val: int, shift: nat): Sextet {
    val / Pow2(shift) % 64
  }

  /** val << 8 on a 32-bit int, the bits shifted out of the top lost. */
  function ShiftByte(val: int): int {
    ToInt32(val * 256)
  }

  /** After n bytes, val still holds the bits of the last byte that the
      next sextet needs: two of them after the first byte of a group,
      four after the second. */
  predicate Carries(val: int, d: seq<Byte>, n: nat)
    requires n <= |d|
  {
    && (n % 3 == 1 ==> val % 4 == d[n - 1] % 4)
    && (n % 3 == 2 ==> val % 16 == d[n - 1] % 16)
  }

  /** With byte c just shifted in at a phase of the group, val holds the
      bits of the sextets still to be emitted. */
  predicate Tracks(val: int, prev: Byte, c: Byte, phase: nat) {
    && val % 256 == c
    && (phase == 1 ==> val % 1024 == prev % 4 * 256 + c)
    && (phase == 2 ==> val % 4096 == prev % 16 * 256 + c)
  }

  /** Shifting byte i in: val (which does not overflow on the addition)
      then tracks the sextets of byte i, and carries its low bits on. */
  lemma ShiftIn(val: int, d: seq<Byte>, i: nat)
    requires i < |d| && Carries(val, d, i)
    ensures var v := ShiftByte(val) + d[i];
            && IsInt32(v) && Tracks(v, Prev(d, i), d[i], i % 3) && Carries(v, d, i + 1)
  {
    var v := ShiftByte(val) + d[i];
    ShiftLowBits(val, d[i]);
    ByteLowBits(v, d[i]);
    NextPhase(i);
  }

  /** The low bits of the accumulator after a byte is shifted in. */
  lemma ShiftLowBits(val: int, c: Byte)
    ensures var v := ShiftByte(val) + c;
            && IsInt32(v)
            && v % 256 == c
            && v % 1024 == val % 4 * 256 + c
            && v % 4096 == val % 16 * 256 + c
  {
    var k := ShiftWraps(val);
    var m := val + k * 0x100_0000;
    assert ShiftByte(val) == 256 * m;
    ByteOnTop(m, c);
    DropHighMultiple(val, k);
  }

  lemma DropHighMultiple(val: int, k: int)
    ensures (val + k * 0x100_0000) % 4 == val % 4
    ensures (val + k * 0x100_0000) % 16 == val % 16
  {
  }

  /** Shifting left by eight bits drops whole multiples of 2^32. */
  lemma ShiftWraps(val: int) returns (k: int)
    ensures ShiftByte(val) == 256 * val + 0x1_0000_0000 * k
  {
    k := (ShiftByte(val) - 256 * val) / 0x1_0000_0000;
  }

  lemma ByteOnTop(m: int, c: Byte)
    ensures (256 * m + c) % 256 == c
    ensures (256 * m + c) % 1024 == m % 4 * 256 + c
    ensures (256 * m + c) % 4096 == m % 16 * 256 + c
  {
    ByteOnTop4(m, c);
    ByteOnTop16(m, c);
  }

  lemma ByteOnTop4(m: int, c: Byte)
    ensures (256 * m + c) % 1024 == m % 4 * 256 + c
  {
    var q := m / 4;
    assert 256 * m + c == 1024 * q + (m % 4 * 256 + c);
  }

  lemma ByteOnTop16(m: int, c: Byte)
    ensures (256 * m + c) % 4096 == m % 16 * 256 + c
  {
    var q := m / 16;
    assert 256 * m + c == 4096 * q + (m % 16 * 256 + c);
  }

  /** Six bits from position 2, 4 or 6 on depend only on the bits below
      position 8, 10 or 12. */
  lemma LowSextet(val: int)
    ensures val / 4 % 64 == val % 256 / 4
    ensures val / 16 % 64 == val % 1024 / 16
    ensures val / 64 % 64 == val % 4096 / 64
  {
    LowSextetAt2(val);
    LowSextetAt4(val);
    LowSextetAt6(val);
  }

  lemma LowSextetAt2(val: int)
    ensures val / 4 % 64 == val % 256 / 4
  {
    var q, r := val / 256, val % 256;
    assert val / 4 == 64 * q + r / 4;
  }

  lemma LowSextetAt4(val: int)
    ensures val / 16 % 64 == val % 1024 / 16
  {
    var q, r := val / 1024, val % 1024;
    assert val / 16 == 64 * q + r / 16;
  }

  lemma LowSextetAt6(val: int)
    ensures val / 64 % 64 == val % 4096 / 64
  {
    var q, r := val / 4096, val % 4096;
    assert val / 64 == 64 * q + r / 64;
  }

  /** The sextet the inner loop emits, by the phase of the group. */
  lemma SextetStep(val: int, valb: int, prev: Byte, c: Byte, phase: nat)
    requires Tracks(val, prev, c, phase) && phase < 3
    requires phase == 0 ==> valb == 2
    requires phase == 1 ==> valb == 4
    requires phase == 2 ==> valb == 6 || valb == 0
    ensures 0 <= valb
    ensures phase == 0 ==> Bits6(val, valb) == S0(c)
    ensures phase == 1 ==> Bits6(val, valb) == S1(prev, c)
    ensures phase == 2 && valb == 6 ==> Bits6(val, valb) == S2(prev, c)
    ensures phase == 2 && valb == 0 ==> Bits6(val, valb) == S3(c)
  {
    if phase == 0 {
      SextetAt2(val, c);
    } else if phase == 1 {
      SextetAt4(val, prev, c);
    } else if valb == 6 {
      SextetAt6(val, prev, c);
    } else {
      SextetAt0(val, c);
    }
  }

  lemma SextetAt2(val: int, c: Byte)
    requires val % 256 == c
    ensures Bits6(val, 2) == S0(c)
  {
    assert Pow2(2) == 4;
    LowSextetAt2(val);
  }

  lemma SextetAt4(val: int, prev: Byte, c: Byte)
    requires val % 1024 == prev % 4 * 256 + c
    ensures Bits6(val, 4) == S1(prev, c)
  {
    assert Pow2(4) == 16;
    LowSextetAt4(val);
  }

  lemma SextetAt6(val: int, prev: Byte, c: Byte)
    requires val % 4096 == prev % 16 * 256 + c
    ensures Bits6(val, 6) == S2(prev, c)
  {
    assert Pow2(6) == 64;
    LowSextetAt6(val);
  }

  lemma SextetAt0(val: int, c: Byte)
    requires val % 256 == c
    ensures Bits6(val, 0) == S3(c)
  {
    assert Pow2(0) == 1;
    assert val / Pow2(0) == val;
    LowSextetAt0(val);
  }

  lemma LowSextetAt0(val: int)
    ensures val % 64 == val % 256 % 64
  {
    var q, r := val / 256, val % 256;
    assert val == 64 * (4 * q) + r;
  }

  /** The last sextet of an incomplete group, zero-filled. */
  lemma FinalStep(val: int, valb: int, d: seq<Byte>)
    requires |d| % 3 != 0 && valb == -6 + 2 * (|d| % 3) && Carries(val, d, |d|)
    ensures 0 <= valb + 8
    ensures |d| % 3 == 1 ==> Bits6(ShiftByte(val), valb + 8) == S1(d[|d| - 1], 0)
    ensures |d| % 3 == 2 ==> Bits6(ShiftByte(val), valb + 8) == S2(d[|d| - 1], 0)
  {
    var phase, last := |d| % 3, d[|d| - 1];
    ShiftLowBits(val, 0);
    assert Pow2(4) == 16 && Pow2(6) == 64;
    if phase == 1 {
      LowSextet(ShiftByte(val));
    } else {
      LowSextet(ShiftByte(val));
    }
  }

  /** encodeBase64: the accumulator loop, then the zero-filled last sextet
      of an incomplete group, then '=' up to a multiple of four. val is the
      32-bit int of the source. */
  method EncodeBase64(data: seq<Byte>) returns (out: string)
    ensures out == Encode(data)
  {
    if |data| == 0 {
      assert Encode(data) == Groups([]) + Final([]);
      return [];
    }
    var val, valb;
    out, val, valb := Accumulate(data);
    out := EmitLast(data, out, val, valb);
    out := Pad(data, out);
  }

  /** The '=' characters that end the encoding. */
  method Pad(data: seq<Byte>, s: string) returns (out: string)
    requires s == BeforePadding(data)
    ensures out == Encode(data)
  {
    PaddingCount(data);
    out := PadToQuad(s, PadLength(|data|));
  }

  /** The zero-filled last sextet of an incomplete group, emitted when the
      accumulator still holds bits above valb = -6. */
  method EmitLast(data: seq<Byte>, out0: string, val: int, valb: int) returns (out: string)
    requires out0 == Emitted(data, |data|)
    requires valb == -6 + 2 * (|data| % 3) && Carries(val, data, |data|)
    ensures out == BeforePadding(data)
  {
    out := out0;
    if valb > -6 {
      FinalStep(val, valb, data);
      AlphabetTable(Bits6(ShiftByte(val), valb + 8));
      out := out + [Alphabet[Bits6(ShiftByte(val), valb + 8)]];
    }
  }

  /** The padding loop of encodeBase64: '=' until the length is a multiple
      of four, which takes the count of characters that the group needs. */
  method PadToQuad(s: string, ghost count: nat) returns (out: string)
    requires count < 4
    requires (|s| + count) % 4 == 0
    ensures out == s + Padding(count)
  {
    out := s;
    ghost var target := |s| + count;
    while |out| % 4 != 0
      invariant |s| <= |out| <= target
      invariant out == s + Padding(|out| - |s|)
      decreases target - |out|
    {
      PadRoom(|out|, target);
      out := out + ['='];
    }
    PadExit(|s|, |out|, target);
  }

  /** The loop over the bytes of encodeBase64: each byte is shifted into
      val, and every complete sextet above valb is emitted. */
  method Accumulate(data: seq<Byte>) returns (out: string, val: int, valb: int)
    ensures out == Emitted(data, |data|)
    ensures valb == -6 + 2 * (|data| % 3) && Carries(val, data, |data|)
  {
    out := [];
    val, valb := 0, -6;
    var i := 0;
    while i < |data|
      invariant i <= |data|
      invariant valb == -6 + 2 * (i % 3)
      invariant out == Emitted(data, i)
      invariant Carries(val, data, i)
    {
      ShiftIn(val, data, i);
      val := ShiftByte(val) + data[i];
      out, valb := EmitComplete(val, valb + 8, Prev(data, i), data[i], i % 3, out);
      NextPhase(i);
      i := i + 1;
    }
  }

  /** The inner loop of encodeBase64: while valb >= 0, emit the six bits
      of val from valb on. */
  method EmitComplete(val: int, valb0: int, ghost prev: Byte, ghost c: Byte, ghost phase: nat, out0: string)
    returns (out: string, valb: int)
    requires phase < 3 && valb0 == 2 + 2 * phase && Tracks(val, prev, c, phase)
    ensures out == out0 + Completed(prev, c, phase)
    ensures valb == if phase == 2 then -6 else valb0 - 6
  {
    out, valb := out0, valb0;
    while valb >= 0
      invariant phase == 0 ==> (valb == 2 && out == out0) || (valb == -4 && out == out0 + Completed(prev, c, 0))
      invariant phase == 1 ==> (valb == 4 && out == out0) || (valb == -2 && out == out0 + Completed(prev, c, 1))
      invariant phase == 2 ==>
                  || (valb == 6 && out == out0)
                  || (valb == 0 && out == out0 + [AlphabetChar(S2(prev, c))])
                  || (valb == -6 && out == out0 + Completed(prev, c, 2))
      decreases valb + 6
    {
      SextetStep(val, valb, prev, c, phase);
      AlphabetTable(Bits6(val, valb));
      out := out + [Alphabet[Bits6(val, valb)]];
      valb := valb - 6;
    }
  }

  lemma ByteLowBits(val: int, c: Byte)
    requires val % 256 == c
    ensures val % 4 == c % 4 && val % 16 == c % 16
  {
    var q := val / 256;
    assert val == 4 * (64 * q + c / 4) + c % 4;
    ModFour(64 * q + c / 4, c % 4);
    assert val == 16 * (16 * q + c / 16) + c % 16;
    ModSixteen(16 * q + c / 16, c % 16);
  }

  lemma ModFour(m: int, r: int)
    requires 0 <= r < 4
    ensures (4 * m + r) % 4 == r
  {
  }

  lemma ModSixteen(m: int, r: int)
    requires 0 <= r < 16
    ensures (16 * m + r) % 16 == r
  {
  }

  lemma NextPhase(i: nat)
    ensures (i + 1) % 3 == if i % 3 == 2 then 0 else i % 3 + 1
  {
  }

  lemma TripleMod(k: nat)
    ensures (3 * k) % 3 == 0
  {
  }

  /** A multiple of three as three times a number of groups. */
  lemma Thirds(n: nat) returns (k: nat)
    requires n % 3 == 0
    ensures 3 * k == n
  {
    k := n / 3;
  }

  lemma PhaseBack(n: int)
    ensures n % 3 == 1 ==> (n - 1) % 3 == 0
    ensures n % 3 == 2 ==> (n - 1) % 3 == 1 && (n - 2) % 3 == 0
    ensures n % 3 == 0 ==> (n - 3) % 3 == 0
  {
  }

  lemma PadRoom(end: nat, target: nat)
    requires end <= target && target % 4 == 0 && end % 4 != 0
    ensures end < target
  {
  }

  /** Padding to a multiple of four stops after exactly the '=' count. */
  lemma PadExit(start: nat, end: nat, target: nat)
    requires start <= end <= target < start + 4
    requires target % 4 == 0 && end % 4 == 0
    ensures end == target
  {
  }
}
