/** The base64 codec both the PHC strings and the attachments use
    (sections 3.2, 3.5 and 4 of RFC 4648): the standard alphabet, with and
    without padding, decoded strictly. */
module Base64 {
  import opened Text

  type sextet = i: int | 0 <= i < 64

  function CharOf(i: sextet): char {
    if i < 26 then (i + 65) as char
    else if i < 52 then (i + 71) as char
    else if i < 62 then (i - 4) as char
    else if i == 62 then '+' else '/'
  }

  predicate IsBase64Char(c: char) {
    'A' <= c <= 'Z' || 'a' <= c <= 'z' || '0' <= c <= '9' || c == '+' || c == '/'
  }

  function IndexOf(c: char): sextet
    requires IsBase64Char(c)
  {
    if 'A' <= c <= 'Z' then c as int - 65
    else if 'a' <= c <= 'z' then c as int - 71
    else if '0' <= c <= '9' then c as int + 4
    else if c == '+' then 62 else 63
  }

  predicate AllBase64(s: string) {
    forall i :: 0 <= i < |s| ==> IsBase64Char(s[i])
  }

  lemma CharRoundTrip(i: sextet)
    ensures IsBase64Char(CharOf(i)) && IndexOf(CharOf(i)) == i
  {
  }

  lemma IndexRoundTrip(c: char)
    requires IsBase64Char(c)
    ensures CharOf(IndexOf(c)) == c
  {
  }

  // One quantum: up to three bytes as two to four characters.

  function Quantum1(a: byte): string {
    [CharOf(a / 4), CharOf(a % 4 * 16)]
  }

  function Quantum2(a: byte, b: byte): string {
    [CharOf(a / 4), CharOf(a % 4 * 16 + b / 16), CharOf(b % 16 * 4)]
  }

  function Quantum3(a: byte, b: byte, c: byte): (q: string)
    ensures |q| == 4
  {
    [CharOf(a / 4), CharOf(a % 4 * 16 + b / 16), CharOf(b % 16 * 4 + c / 64), CharOf(c % 64)]
  }

  /** RawStdEncoding.EncodeToString: no padding. */
  function EncodeRaw(b: seq<byte>): string {
    if |b| == 0 then ""
    else if |b| == 1 then Quantum1(b[0])
    else if |b| == 2 then Quantum2(b[0], b[1])
    else Quantum3(b[0], b[1], b[2]) + EncodeRaw(b[3..])
  }

  /** The `=` signs that fill the last quantum. */
  function Padding(n: nat): string {
    if n % 3 == 0 then "" else if n % 3 == 1 then "==" else "="
  }

  /** StdEncoding: the raw form with its last quantum filled up. */
  function Encode(b: seq<byte>): string {
    EncodeRaw(b) + Padding(|b|)
  }

  function Decode4(s: string): (r: Option<seq<byte>>)
    requires |s| == 4
  {
    if AllBase64(s) then
      var i0, i1, i2, i3 := IndexOf(s[0]), IndexOf(s[1]), IndexOf(s[2]), IndexOf(s[3]);
      Some([i0 * 4 + i1 / 16, i1 % 16 * 16 + i2 / 4, i2 % 4 * 64 + i3])
    else None
  }

  function Decode3(s: string): (r: Option<seq<byte>>)
    requires |s| == 3
  {
    if AllBase64(s) && IndexOf(s[2]) % 4 == 0 then
      var i0, i1, i2 := IndexOf(s[0]), IndexOf(s[1]), IndexOf(s[2]);
      Some([i0 * 4 + i1 / 16, i1 % 16 * 16 + i2 / 4])
    else None
  }

  function Decode2(s: string): (r: Option<seq<byte>>)
    requires |s| == 2
  {
    if AllBase64(s) && IndexOf(s[1]) % 16 == 0 then
      Some([IndexOf(s[0]) * 4 + IndexOf(s[1]) / 16])
    else None
  }

  /** The unpadded strict decoder on text without line breaks: left-over bits must be zero. */
  function DecodeRaw(s: string): (r: Option<seq<byte>>) {
    if |s| == 0 then Some([])
    else if |s| == 1 then None
    else if |s| == 2 then Decode2(s)
    else if |s| == 3 then Decode3(s)
    else
      match Decode4(s[..4])
      case None => None
      case Some(head) =>
        match DecodeRaw(s[4..])
        case None => None
        case Some(tail) => Some(head + tail)
  }

  /** RawStdEncoding.Strict().DecodeString: CR and LF are skipped wherever they stand. */
  function DecodeString(s: string): Option<seq<byte>> {
    DecodeRaw(StripBreaks(s))
  }

  /** The padded strict decoder: the text is a whole number of quanta and only the last may be padded. */
  function DecodePadded(s: string): Option<seq<byte>> {
    if |s| % 4 != 0 then None
    else if |s| > 0 && s[|s| - 2..] == "==" then
      DecodeRaw(s[..|s| - 2])
    else if |s| > 0 && s[|s| - 1] == '=' then DecodeRaw(s[..|s| - 1])
    else DecodeRaw(s)
  }

  // ------------------------------------------------------------------
  // Round trips
  // ------------------------------------------------------------------

  /** How two neighbouring bytes share a sextet. */
  lemma SharedSextets(a: byte, b: byte)
    ensures (a % 4 * 16 + b / 16) / 16 == a % 4 && (a % 4 * 16 + b / 16) % 16 == b / 16
    ensures (a % 16 * 4 + b / 64) / 4 == a % 16 && (a % 16 * 4 + b / 64) % 4 == b / 64
  {
  }

  lemma Decode4Inverse(a: byte, b: byte, c: byte)
    ensures Decode4(Quantum3(a, b, c)) == Some([a, b, c])
  {
    var i0, i1, i2, i3 := a / 4, a % 4 * 16 + b / 16, b % 16 * 4 + c / 64, c % 64;
    DecodeIndices(i0, i1, i2, i3);
    hide Decode4, CharOf;
    SharedSextets(a, b);
    SharedSextets(b, c);
  }

  /** Four characters decode by their indices. */
  lemma DecodeIndices(i0: sextet, i1: sextet, i2: sextet, i3: sextet)
    ensures Decode4([CharOf(i0), CharOf(i1), CharOf(i2), CharOf(i3)])
            == Some([i0 * 4 + i1 / 16, i1 % 16 * 16 + i2 / 4, i2 % 4 * 64 + i3])
  {
    CharRoundTrip(i0);
    CharRoundTrip(i1);
    CharRoundTrip(i2);
    CharRoundTrip(i3);
    hide CharOf, IndexOf, IsBase64Char;
    assert AllBase64([CharOf(i0), CharOf(i1), CharOf(i2), CharOf(i3)]);
  }

  lemma Decode3Inverse(a: byte, b: byte)
    ensures Decode3(Quantum2(a, b)) == Some([a, b])
  {
    var s := Quantum2(a, b);
    CharRoundTrip(a / 4);
    CharRoundTrip(a % 4 * 16 + b / 16);
    CharRoundTrip(b % 16 * 4);
    hide CharOf, IndexOf, IsBase64Char;
    assert AllBase64(s);
    SharedSextets(a, b);
  }

  lemma Decode2Inverse(a: byte)
    ensures Decode2(Quantum1(a)) == Some([a])
  {
    CharRoundTrip(a / 4);
    CharRoundTrip(a % 4 * 16);
  }

  lemma Quantum3Inverse(s: string)
    requires |s| == 4 && Decode4(s).Some?
    ensures var d := Decode4(s).value; Quantum3(d[0], d[1], d[2]) == s
  {
    var d := Decode4(s).value;
    var i0, i1, i2, i3 := IndexOf(s[0]), IndexOf(s[1]), IndexOf(s[2]), IndexOf(s[3]);
    assert d[0] / 4 == i0 && d[0] % 4 * 16 + d[1] / 16 == i1;
    assert d[1] % 16 * 4 + d[2] / 64 == i2 && d[2] % 64 == i3;
    IndexRoundTrip(s[0]); IndexRoundTrip(s[1]); IndexRoundTrip(s[2]); IndexRoundTrip(s[3]);
  }

  lemma Quantum2Inverse(s: string)
    requires |s| == 3 && Decode3(s).Some?
    ensures var d := Decode3(s).value; Quantum2(d[0], d[1]) == s
  {
    var d := Decode3(s).value;
    var i0, i1, i2 := IndexOf(s[0]), IndexOf(s[1]), IndexOf(s[2]);
    assert d[0] / 4 == i0 && d[0] % 4 * 16 + d[1] / 16 == i1 && d[1] % 16 * 4 == i2;
    IndexRoundTrip(s[0]); IndexRoundTrip(s[1]); IndexRoundTrip(s[2]);
  }

  lemma Quantum1Inverse(s: string)
    requires |s| == 2 && Decode2(s).Some?
    ensures Quantum1(Decode2(s).value[0]) == s
  {
    hide CharOf, IndexOf, IsBase64Char;
    IndexRoundTrip(s[0]); IndexRoundTrip(s[1]);
  }

  lemma {:induction false} DecodeEncodeRaw(b: seq<byte>)
    ensures DecodeRaw(EncodeRaw(b)) == Some(b)
  {
    if |b| < 3 {
      DecodeEncodeLast(b);
    } else {
      hide *;
      DecodeEncodeRaw(b[3..]);
      EncodeStep(b);
      Decode4Inverse(b[0], b[1], b[2]);
      DecodeStep(Quantum3(b[0], b[1], b[2]), EncodeRaw(b[3..]));
      assert [b[0], b[1], b[2]] + b[3..] == b;
    }
  }

  lemma DecodeEncodeLast(b: seq<byte>)
    requires |b| < 3
    ensures DecodeRaw(EncodeRaw(b)) == Some(b)
  {
    hide CharOf, IndexOf, IsBase64Char, Decode2, Decode3, Decode4;
    if |b| == 1 {
      Decode2Inverse(b[0]);
      assert b == [b[0]];
    } else if |b| == 2 {
      Decode3Inverse(b[0], b[1]);
      assert b == [b[0], b[1]];
    }
  }

  lemma DecodeStep(quantum: string, rest: string)
    requires |quantum| == 4
    ensures Decode4(quantum).Some? && DecodeRaw(rest).Some? ==>
              DecodeRaw(quantum + rest) == Some(Decode4(quantum).value + DecodeRaw(rest).value)
  {
    var s := quantum + rest;
    assert s[..4] == quantum && s[4..] == rest;
    hide Decode2, Decode3, Decode4;
  }

  /** Strictness: a text decodes to `b` only if it is the encoding of `b`. */
  lemma {:induction false} EncodeDecodeRaw(s: string)
    requires DecodeRaw(s).Some?
    ensures EncodeRaw(DecodeRaw(s).value) == s
  {
    hide CharOf, IndexOf, IsBase64Char;
    if |s| == 2 {
      Quantum1Inverse(s);
    } else if |s| == 3 {
      Quantum2Inverse(s);
    } else if |s| >= 4 {
      EncodeDecodeRaw(s[4..]);
      Quantum3Inverse(s[..4]);
      var b := DecodeRaw(s).value;
      assert b[3..] == DecodeRaw(s[4..]).value;
      assert s[..4] + s[4..] == s;
    }
  }

  /** Only alphabet characters are written, and the length is the number of sextets. */
  lemma {:induction false} EncodeRawShape(b: seq<byte>)
    ensures AllBase64(EncodeRaw(b))
    ensures |EncodeRaw(b)| == (4 * |b| + 2) / 3
  {
    hide CharOf, IndexOf, IsBase64Char;
    if |b| == 1 {
      CharRoundTrip(b[0] / 4); CharRoundTrip(b[0] % 4 * 16);
    } else if |b| == 2 {
      CharRoundTrip(b[0] / 4); CharRoundTrip(b[0] % 4 * 16 + b[1] / 16); CharRoundTrip(b[1] % 16 * 4);
    } else if |b| >= 3 {
      EncodeRawShape(b[3..]);
      CharRoundTrip(b[0] / 4); CharRoundTrip(b[0] % 4 * 16 + b[1] / 16);
      CharRoundTrip(b[1] % 16 * 4 + b[2] / 64); CharRoundTrip(b[2] % 64);
    }
  }

  /** A character that a base64 text can hold. */
  predicate IsEncodedChar(c: char) {
    IsBase64Char(c) || c == '='
  }

  lemma EncodeShape(b: seq<byte>)
    ensures forall i :: 0 <= i < |Encode(b)| ==> IsEncodedChar(Encode(b)[i])
    ensures |Encode(b)| == (|b| + 2) / 3 * 4
  {
    hide EncodeRaw, IsBase64Char;
    EncodeRawShape(b);
    PaddingFills(|b|);
    hide Padding;
    var raw, pad := EncodeRaw(b), Padding(|b|);
    forall i | 0 <= i < |Encode(b)|
      ensures IsEncodedChar(Encode(b)[i])
    {
      if i < |raw| { assert IsBase64Char(raw[i]); } else { assert pad[i - |raw|] == '='; }
    }
  }

  lemma PaddingFills(n: nat)
    ensures (4 * n + 2) / 3 + |Padding(n)| == (n + 2) / 3 * 4
    ensures forall i :: 0 <= i < |Padding(n)| ==> Padding(n)[i] == '='
  {
    var q, r := n / 3, n % 3;
    assert n == 3 * q + r;
    if r == 0 {
      assert (4 * n + 2) / 3 == 4 * q && (n + 2) / 3 == q;
    } else if r == 1 {
      assert (4 * n + 2) / 3 == 4 * q + 2 && (n + 2) / 3 == q + 1;
    } else {
      assert (4 * n + 2) / 3 == 4 * q + 3 && (n + 2) / 3 == q + 1;
    }
  }

  /** The padded decoder drops exactly the padding that the length calls for. */
  lemma DecodePaddedOf(raw: string, pad: string)
    requires AllBase64(raw) && (pad == "" || pad == "=" || pad == "==")
    requires (|raw| + |pad|) % 4 == 0 && (pad != "" ==> |raw| > 0)
    ensures DecodePadded(raw + pad) == DecodeRaw(raw)
  {
    hide DecodeRaw, IsBase64Char;
    var s := raw + pad;
    assert s[..|raw|] == raw;
    LastIsNotPad(raw);
    if pad == "" {
      assert s == raw;
    } else if pad == "==" {
      assert s[|s| - 2..] == "==";
    } else {
      assert s[|s| - 2..][0] == raw[|raw| - 1] && s[|s| - 1] == '=';
    }
  }

  lemma LastIsNotPad(raw: string)
    requires AllBase64(raw)
    ensures raw != "" ==> raw[|raw| - 1] != '='
    ensures raw != "" && |raw| >= 2 ==> raw[|raw| - 2..] != "=="
  {
    if |raw| >= 2 {
      assert raw[|raw| - 2..][1] == raw[|raw| - 1];
    }
  }

  lemma DecodeEncodePadded(b: seq<byte>)
    ensures DecodePadded(Encode(b)) == Some(b)
  {
    EncodeRawShape(b);
    DecodeEncodeRaw(b);
    hide EncodeRaw, DecodeRaw, DecodePadded;
    DecodePaddedOf(EncodeRaw(b), Padding(|b|));
  }

  /** Encoding is a homomorphism on whole quanta, which is what lets it stream. */
  lemma {:induction false} EncodeConcatRaw(a: seq<byte>, b: seq<byte>)
    requires |a| % 3 == 0
    ensures EncodeRaw(a + b) == EncodeRaw(a) + EncodeRaw(b)
  {
    hide *;
    if |a| == 0 {
      assert a + b == b && a == [];
      EncodeNothing(b);
    } else {
      var head, rest := Quantum3(a[0], a[1], a[2]), a[3..];
      EncodeConcatRaw(rest, b);
      EncodeStep(a);
      EncodeStep(a + b);
      assert (a + b)[3..] == rest + b;
      Regroup(head, EncodeRaw(rest), EncodeRaw(b));
    }
  }

  lemma EncodeNothing(b: seq<byte>)
    ensures EncodeRaw([]) + EncodeRaw(b) == EncodeRaw(b)
  {
  }

  lemma EncodeStep(b: seq<byte>)
    requires |b| >= 3
    ensures EncodeRaw(b) == Quantum3(b[0], b[1], b[2]) + EncodeRaw(b[3..])
  {
    hide Quantum1, Quantum2, Quantum3;
  }

  lemma EncodeConcat(a: seq<byte>, b: seq<byte>)
    requires |a| % 3 == 0
    ensures Encode(a + b) == Encode(a) + Encode(b)
  {
    hide EncodeRaw;
    EncodeConcatRaw(a, b);
    assert Padding(|a + b|) == Padding(|b|);
    assert Encode(a) == EncodeRaw(a);
  }

  // ------------------------------------------------------------------
  // What the characters stand for
  // ------------------------------------------------------------------

  const UPPER: string := "ABCDEFGHIJKLMNOPQRSTUVWXYZ"
  const LOWER: string := "abcdefghijklmnopqrstuvwxyz"
  const OTHERS: string := "0123456789+/"

  /** Table 1 of RFC 4648. */
  const ALPHABET: string := UPPER + LOWER + OTHERS

  lemma UpperIs(i: nat)
    requires i < 26
    ensures |UPPER| == 26 && UPPER[i] == CharOf(i)
  {
  }

  lemma LowerIs(i: nat)
    requires i < 26
    ensures |LOWER| == 26 && LOWER[i] == CharOf(26 + i)
  {
  }

  lemma OthersAre(i: nat)
    requires i < 12
    ensures |OTHERS| == 12 && OTHERS[i] == CharOf(52 + i)
  {
  }

  /** The characters are those of the table. */
  lemma AlphabetIs(i: sextet)
    ensures |ALPHABET| == 64 && ALPHABET[i] == CharOf(i)
  {
    hide CharOf, UPPER, LOWER, OTHERS;
    UpperIs(if i < 26 then i else 0);
    LowerIs(if 26 <= i < 52 then i - 26 else 0);
    OthersAre(if 52 <= i then i - 52 else 0);
  }

  /** A bit of a byte, the most significant first. */
  function Bit(b: byte, k: nat): int
    requires k < 8
  {
    match k
    case 0 => b / 128
    case 1 => b / 64 % 2
    case 2 => b / 32 % 2
    case 3 => b / 16 % 2
    case 4 => b / 8 % 2
    case 5 => b / 4 % 2
    case 6 => b / 2 % 2
    case 7 => b % 2
  }

  /** A bit of a byte string, zero past its end. */
  function BitAt(b: seq<byte>, k: nat): int {
    if k / 8 < |b| then Bit(b[k / 8], k % 8) else 0
  }

  /** Six bits as a number. */
  function SixBits(b: seq<byte>, from: nat): int {
    32 * BitAt(b, from) + 16 * BitAt(b, from + 1) + 8 * BitAt(b, from + 2) + 4 * BitAt(b, from + 3)
    + 2 * BitAt(b, from + 4) + BitAt(b, from + 5)
  }

  lemma BitsOf(b: byte)
    ensures b == 128 * Bit(b, 0) + 64 * Bit(b, 1) + 32 * Bit(b, 2) + 16 * Bit(b, 3)
                 + 8 * Bit(b, 4) + 4 * Bit(b, 5) + 2 * Bit(b, 6) + Bit(b, 7)
    ensures forall k: nat :: k < 8 ==> 0 <= Bit(b, k) <= 1
  {
    Halves(b);
    assert b == 16 * (b / 16) + 8 * Bit(b, 4) + 4 * Bit(b, 5) + 2 * Bit(b, 6) + Bit(b, 7);
    assert b / 16 == 8 * Bit(b, 0) + 4 * Bit(b, 1) + 2 * Bit(b, 2) + Bit(b, 3);
  }

  lemma Halves(b: byte)
    ensures b == 2 * (b / 2) + b % 2 && b / 2 == 2 * (b / 4) + b / 2 % 2
    ensures b / 4 == 2 * (b / 8) + b / 4 % 2 && b / 8 == 2 * (b / 16) + b / 8 % 2
    ensures b / 16 == 2 * (b / 32) + b / 16 % 2 && b / 32 == 2 * (b / 64) + b / 32 % 2
    ensures b / 64 == 2 * (b / 128) + b / 64 % 2
  {
    assert b / 4 == b / 2 / 2 && b / 8 == b / 4 / 2 && b / 16 == b / 8 / 2 && b / 32 == b / 16 / 2;
    assert b / 64 == b / 32 / 2 && b / 128 == b / 64 / 2;
  }

  /** A byte of a byte string, zero past its end. */
  function ByteAt(b: seq<byte>, n: nat): byte {
    if n < |b| then b[n] else 0
  }

  lemma BitOfByte(b: seq<byte>, n: nat, k: nat)
    requires k < 8
    ensures BitAt(b, 8 * n + k) == Bit(ByteAt(b, n), k)
  {
    assert (8 * n + k) / 8 == n && (8 * n + k) % 8 == k;
    assert Bit(0, k) == 0;
  }

  /** The four sextets of three bytes. */
  function Group(a: byte, b: byte, c: byte, i: nat): sextet
    requires i < 4
  {
    match i
    case 0 => a / 4
    case 1 => a % 4 * 16 + b / 16
    case 2 => b % 16 * 4 + c / 64
    case 3 => c % 64
  }

  lemma FirstGroups(b: seq<byte>, i: nat)
    requires i < 4
    ensures SixBits(b, 6 * i) == Group(ByteAt(b, 0), ByteAt(b, 1), ByteAt(b, 2), i)
  {
    forall k: nat | k < 8
      ensures BitAt(b, k) == Bit(ByteAt(b, 0), k) && BitAt(b, 8 + k) == Bit(ByteAt(b, 1), k)
      ensures BitAt(b, 16 + k) == Bit(ByteAt(b, 2), k)
    {
      BitOfByte(b, 0, k);
      BitOfByte(b, 1, k);
      BitOfByte(b, 2, k);
    }
    hide BitAt, Bit, ByteAt;
    CutByte(ByteAt(b, 0));
    CutByte(ByteAt(b, 1));
    CutByte(ByteAt(b, 2));
  }

  /** A byte cut after two, four and six bits. */
  lemma CutByte(a: byte)
    ensures a / 4 == 32 * Bit(a, 0) + 16 * Bit(a, 1) + 8 * Bit(a, 2) + 4 * Bit(a, 3) + 2 * Bit(a, 4) + Bit(a, 5)
    ensures a % 4 == 2 * Bit(a, 6) + Bit(a, 7)
    ensures a / 16 == 8 * Bit(a, 0) + 4 * Bit(a, 1) + 2 * Bit(a, 2) + Bit(a, 3)
    ensures a % 16 == 8 * Bit(a, 4) + 4 * Bit(a, 5) + 2 * Bit(a, 6) + Bit(a, 7)
    ensures a / 64 == 2 * Bit(a, 0) + Bit(a, 1)
    ensures a % 64 == 32 * Bit(a, 2) + 16 * Bit(a, 3) + 8 * Bit(a, 4) + 4 * Bit(a, 5) + 2 * Bit(a, 6) + Bit(a, 7)
  {
    BitsOf(a);
    hide Bit;
  }

  lemma LaterBits(b: seq<byte>, k: nat)
    requires |b| >= 3
    ensures BitAt(b, k + 24) == BitAt(b[3..], k)
  {
    assert (k + 24) / 8 == k / 8 + 3 && (k + 24) % 8 == k % 8;
  }

  lemma LaterGroups(b: seq<byte>, from: nat)
    requires |b| >= 3
    ensures SixBits(b, from + 24) == SixBits(b[3..], from)
  {
    hide BitAt;
    LaterBits(b, from);
    LaterBits(b, from + 1);
    LaterBits(b, from + 2);
    LaterBits(b, from + 3);
    LaterBits(b, from + 4);
    LaterBits(b, from + 5);
  }

  /** The encoding is the string of bits cut into sixes, the last filled with zeros, each written as the table says. */
  lemma {:induction false} EncodeIsBits(b: seq<byte>, i: nat)
    requires i < |EncodeRaw(b)|
    ensures 0 <= SixBits(b, 6 * i) < |ALPHABET| && EncodeRaw(b)[i] == ALPHABET[SixBits(b, 6 * i)]
    decreases |b|
  {
    hide SixBits, CharOf, ALPHABET;
    if |b| >= 3 && i >= 4 {
      EncodeIsBits(b[3..], i - 4);
      LaterGroups(b, 6 * (i - 4));
      assert EncodeRaw(b)[i] == EncodeRaw(b[3..])[i - 4];
    } else {
      FirstCharacters(b, i);
      AlphabetIs(SixBits(b, 6 * i));
    }
  }

  lemma FirstCharacters(b: seq<byte>, i: nat)
    requires i < |EncodeRaw(b)| && i < 4
    ensures 0 <= SixBits(b, 6 * i) < 64 && EncodeRaw(b)[i] == CharOf(SixBits(b, 6 * i))
  {
    FirstGroups(b, i);
    FilledQuantum(b, i);
    hide EncodeRaw, SixBits, CharOf, Group;
  }

  /** Missing bytes count as zero. */
  lemma FilledQuantum(b: seq<byte>, i: nat)
    requires i < |EncodeRaw(b)| && i < 4
    ensures EncodeRaw(b)[i] == CharOf(Group(ByteAt(b, 0), ByteAt(b, 1), ByteAt(b, 2), i))
  {
    hide CharOf;
    if |b| >= 3 {
      WholeQuantum(b, i);
      hide EncodeRaw;
    }
  }

  lemma WholeQuantum(b: seq<byte>, i: nat)
    requires |b| >= 3 && i < 4
    ensures EncodeRaw(b)[i] == Quantum3(b[0], b[1], b[2])[i]
  {
    hide Quantum3;
  }
}
