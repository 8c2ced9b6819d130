/**
 * Base 64 encoding with the standard alphabet and `=` padding (section 4 of
 * RFC 4648), as Node's `toString('base64')` and `digest('base64')` produce it,
 * with the strict decoder that is its inverse: it accepts exactly the strings
 * the encoder can produce.
 *
 * Both directions go through a sequence of six-bit values, with `PadValue`
 * standing for a pad: bytes and six-bit values are related by arithmetic
 * alone, six-bit values and characters position by position.
 */
module Base64 {
  import opened Wrappers
  import opened Bytes

  const Pad: char := '='

  /** The six-bit sequence's mark for a pad character. */
  const PadValue: int := 64

  /** The 64 characters of the alphabet: A-Z, a-z, 0-9, '+' and '/'. */
  predicate IsSymbol(c: char)
  {
    ('A' <= c <= 'Z') || ('a' <= c <= 'z') || ('0' <= c <= '9') || c == '+' || c == '/'
  }

  /** The value of a symbol, its position in the alphabet. */
  function Value(c: char): (v: nat)
    requires IsSymbol(c)
    ensures v < 64
  {
    if 'A' <= c <= 'Z' then c as int - 'A' as int
    else if 'a' <= c <= 'z' then c as int - 'a' as int + 26
    else if '0' <= c <= '9' then c as int - '0' as int + 52
    else if c == '+' then 62
    else 63
  }

  /** The symbol at position `v` of the alphabet. */
  function Symbol(v: int): (c: char)
    requires 0 <= v < 64
    ensures IsSymbol(c)
  {
    if v < 26 then ('A' as int + v) as char
    else if v < 52 then ('a' as int + v - 26) as char
    else if v < 62 then ('0' as int + v - 52) as char
    else if v == 62 then '+'
    else '/'
  }

  /** Symbol and Value are inverse on the alphabet. */
  lemma ValueSymbol(v: int)
    requires 0 <= v < 64
    ensures Value(Symbol(v)) == v
  {
  }

  lemma SymbolValue(c: char)
    requires IsSymbol(c)
    ensures Symbol(Value(c)) == c
  {
  }

  /** A character the encoder may emit. */
  predicate IsOutputChar(c: char) { IsSymbol(c) || c == Pad }

  /** A six-bit value or the pad mark. */
  predicate IsSextet(x: int) { 0 <= x <= PadValue }

  predicate AllSextets(xs: seq<int>) { forall i :: 0 <= i < |xs| ==> IsSextet(xs[i]) }

  // Bytes and six-bit values

  /** Three bytes, 24 bits, cut into four six-bit values, most significant first. */
  function GroupThree(b0: byte, b1: byte, b2: byte): seq<int>
  {
    [b0 as int / 4, b0 as int % 4 * 16 + b1 as int / 16, b1 as int % 16 * 4 + b2 as int / 64, b2 as int % 64]
  }

  /** A final two bytes: three values, the last with two zero bits, and a pad. */
  function GroupTwo(b0: byte, b1: byte): seq<int>
  {
    [b0 as int / 4, b0 as int % 4 * 16 + b1 as int / 16, b1 as int % 16 * 4, PadValue]
  }

  /** A final byte: two values, the last with four zero bits, and two pads. */
  function GroupOne(b0: byte): seq<int>
  {
    [b0 as int / 4, b0 as int % 4 * 16, PadValue, PadValue]
  }

  function Sextets(b: seq<byte>): (r: seq<int>)
    ensures |r| == 4 * ((|b| + 2) / 3)
    ensures AllSextets(r)
    decreases |b|
  {
    if |b| == 0 then []
    else if |b| == 1 then GroupOne(b[0])
    else if |b| == 2 then GroupTwo(b[0], b[1])
    else GroupThree(b[0], b[1], b[2]) + Sextets(b[3..])
  }

  /** Four values without a pad become three bytes. */
  function UngroupFull(x0: int, x1: int, x2: int, x3: int): Option<seq<byte>>
  {
    if 0 <= x0 < 64 && 0 <= x1 < 64 && 0 <= x2 < 64 && 0 <= x3 < 64 then
      Some([(x0 * 4 + x1 / 16) as byte, (x1 % 16 * 16 + x2 / 4) as byte, (x2 % 4 * 64 + x3) as byte])
    else None
  }

  /**
   * The last four values may end in one or two pads; the bits the pad
   * leaves over must be zero, as the encoder writes them.
   */
  function UngroupLast(x0: int, x1: int, x2: int, x3: int): Option<seq<byte>>
  {
    if x3 != PadValue then UngroupFull(x0, x1, x2, x3)
    else if x2 == PadValue then
      if 0 <= x0 < 64 && 0 <= x1 < 64 && x1 % 16 == 0 then Some([(x0 * 4 + x1 / 16) as byte])
      else None
    else if 0 <= x0 < 64 && 0 <= x1 < 64 && 0 <= x2 < 64 && x2 % 4 == 0 then
      Some([(x0 * 4 + x1 / 16) as byte, (x1 % 16 * 16 + x2 / 4) as byte])
    else None
  }

  function Unsextets(xs: seq<int>): Option<seq<byte>>
    decreases |xs|
  {
    if |xs| == 0 then Some([])
    else if |xs| < 4 then None
    else if |xs| == 4 then UngroupLast(xs[0], xs[1], xs[2], xs[3])
    else match UngroupFull(xs[0], xs[1], xs[2], xs[3])
      case None => None
      case Some(group) =>
        match Unsextets(xs[4..])
        case None => None
        case Some(rest) => Some(group + rest)
  }

  // Six-bit values and characters

  function Render(xs: seq<int>): (s: string)
    requires AllSextets(xs)
    ensures |s| == |xs|
  {
    seq(|xs|, i requires 0 <= i < |xs| => if xs[i] == PadValue then Pad else Symbol(xs[i]))
  }

  function Unrender(s: string): Option<seq<int>>
  {
    if forall i :: 0 <= i < |s| ==> IsOutputChar(s[i]) then
      Some(seq(|s|, i requires 0 <= i < |s| => if s[i] == Pad then PadValue else Value(s[i])))
    else None
  }

  // The codec

  function Encode(b: seq<byte>): (r: string)
    ensures |r| == 4 * ((|b| + 2) / 3)
  {
    Render(Sextets(b))
  }

  function Decode(s: string): Option<seq<byte>>
  {
    match Unrender(s)
    case None => None
    case Some(xs) => Unsextets(xs)
  }

  // Arithmetic of one group

  /** Cutting three bytes into four six-bit values and joining them again loses nothing. */
  lemma Ungroup(x0: int, x1: int, x2: int)
    requires 0 <= x0 < 256 && 0 <= x1 < 256 && 0 <= x2 < 256
    ensures var v0, v1, v2, v3 := x0 / 4, x0 % 4 * 16 + x1 / 16, x1 % 16 * 4 + x2 / 64, x2 % 64;
      && v0 < 64 && v1 < 64 && v2 < 64
      && v0 * 4 + v1 / 16 == x0 && v1 % 16 * 16 + v2 / 4 == x1 && v2 % 4 * 64 + v3 == x2
      && (x2 == 0 ==> v2 % 4 == 0) && (x1 == 0 ==> v1 % 16 == 0)
  {
    var v1 := x0 % 4 * 16 + x1 / 16;
    var v2 := x1 % 16 * 4 + x2 / 64;
    assert v1 / 16 == x0 % 4 && v1 % 16 == x1 / 16;
    assert v2 / 4 == x1 % 16 && v2 % 4 == x2 / 64;
  }

  /** Joining four six-bit values into three bytes and cutting them again loses nothing. */
  lemma Regroup(v0: int, v1: int, v2: int, v3: int)
    requires 0 <= v0 < 64 && 0 <= v1 < 64 && 0 <= v2 < 64 && 0 <= v3 < 64
    ensures var x0, x1, x2 := v0 * 4 + v1 / 16, v1 % 16 * 16 + v2 / 4, v2 % 4 * 64 + v3;
      && x0 / 4 == v0 && x0 % 4 * 16 + x1 / 16 == v1
      && x1 % 16 * 4 + x2 / 64 == v2 && x2 % 64 == v3
      && (v2 % 4 == 0 ==> x1 % 16 * 4 == v2)
      && (v1 % 16 == 0 ==> x0 % 4 * 16 == v1)
  {
    var x0, x1, x2 := v0 * 4 + v1 / 16, v1 % 16 * 16 + v2 / 4, v2 % 4 * 64 + v3;
    assert x0 / 4 == v0 && x0 % 4 == v1 / 16;
    assert x1 / 16 == v1 % 16 && x1 % 16 == v2 / 4;
    assert x2 / 64 == v2 % 4 && x2 % 64 == v3;
  }

  lemma UngroupGroupThree(b0: byte, b1: byte, b2: byte)
    ensures var g := GroupThree(b0, b1, b2); UngroupFull(g[0], g[1], g[2], g[3]) == Some([b0, b1, b2])
    ensures var g := GroupThree(b0, b1, b2); UngroupLast(g[0], g[1], g[2], g[3]) == Some([b0, b1, b2])
  {
    Ungroup(b0 as int, b1 as int, b2 as int);
  }

  lemma UngroupGroupTwo(b0: byte, b1: byte)
    ensures var g := GroupTwo(b0, b1); UngroupLast(g[0], g[1], g[2], g[3]) == Some([b0, b1])
  {
    Ungroup(b0 as int, b1 as int, 0);
  }

  lemma UngroupGroupOne(b0: byte)
    ensures var g := GroupOne(b0); UngroupLast(g[0], g[1], g[2], g[3]) == Some([b0])
  {
    Ungroup(b0 as int, 0, 0);
  }

  lemma GroupUngroupFull(x0: int, x1: int, x2: int, x3: int)
    requires UngroupFull(x0, x1, x2, x3).Some?
    ensures var g := UngroupFull(x0, x1, x2, x3).value; |g| == 3 && GroupThree(g[0], g[1], g[2]) == [x0, x1, x2, x3]
  {
    Regroup(x0, x1, x2, x3);
  }

  lemma GroupUngroupLast(x0: int, x1: int, x2: int, x3: int)
    requires UngroupLast(x0, x1, x2, x3).Some?
    ensures Sextets(UngroupLast(x0, x1, x2, x3).value) == [x0, x1, x2, x3]
  {
    var g := UngroupLast(x0, x1, x2, x3).value;
    if x3 != PadValue {
      GroupUngroupFull(x0, x1, x2, x3);
      assert g[3..] == [];
    } else if x2 == PadValue {
      Regroup(x0, x1, 0, 0);
    } else {
      Regroup(x0, x1, x2, 0);
    }
  }

  // Bytes and six-bit values, whole sequences

  lemma ConsThree(b: seq<byte>)
    requires |b| >= 3
    ensures [b[0], b[1], b[2]] + b[3..] == b
  {
  }

  lemma ConsFour(xs: seq<int>)
    requires |xs| >= 4
    ensures [xs[0], xs[1], xs[2], xs[3]] + xs[4..] == xs
  {
  }

  /** A full group followed by a decodable rest decodes to the group's bytes and the rest's. */
  lemma UnsextetsCons(head: seq<int>, tail: seq<int>, group: seq<byte>, rest: seq<byte>)
    requires |head| == 4 && |tail| > 0
    requires UngroupFull(head[0], head[1], head[2], head[3]) == Some(group)
    requires Unsextets(tail) == Some(rest)
    ensures Unsextets(head + tail) == Some(group + rest)
  {
    var xs := head + tail;
    assert xs[0] == head[0] && xs[1] == head[1] && xs[2] == head[2] && xs[3] == head[3];
    assert xs[4..] == tail;
  }

  lemma {:induction false} UnsextetsSextets(b: seq<byte>)
    ensures Unsextets(Sextets(b)) == Some(b)
    decreases |b|
  {
    if |b| == 1 {
      UngroupGroupOne(b[0]);
      assert b == [b[0]];
    } else if |b| == 2 {
      UngroupGroupTwo(b[0], b[1]);
      assert b == [b[0], b[1]];
    } else if |b| == 3 {
      UngroupGroupThree(b[0], b[1], b[2]);
      assert b[3..] == [] && b == [b[0], b[1], b[2]];
      assert Sextets(b) == GroupThree(b[0], b[1], b[2]);
    } else if |b| > 3 {
      UnsextetsSextets(b[3..]);
      UngroupGroupThree(b[0], b[1], b[2]);
      ConsThree(b);
      UnsextetsCons(GroupThree(b[0], b[1], b[2]), Sextets(b[3..]), [b[0], b[1], b[2]], b[3..]);
    }
  }

  /** A decodable sequence longer than one group decodes group by group. */
  lemma UnsextetsSplit(xs: seq<int>)
    requires |xs| > 4 && Unsextets(xs).Some?
    ensures UngroupFull(xs[0], xs[1], xs[2], xs[3]).Some? && Unsextets(xs[4..]).Some?
    ensures Unsextets(xs).value == UngroupFull(xs[0], xs[1], xs[2], xs[3]).value + Unsextets(xs[4..]).value
  {
  }

  lemma SextetsCons(g: seq<byte>, rest: seq<byte>)
    requires |g| == 3
    ensures Sextets(g + rest) == GroupThree(g[0], g[1], g[2]) + Sextets(rest)
  {
    var b := g + rest;
    assert b[3..] == rest;
    if |rest| == 0 {
      assert b == g;
    }
  }

  lemma {:induction false} SextetsUnsextets(xs: seq<int>)
    requires Unsextets(xs).Some?
    ensures Sextets(Unsextets(xs).value) == xs
    decreases |xs|
  {
    if |xs| == 4 {
      GroupUngroupLast(xs[0], xs[1], xs[2], xs[3]);
      assert xs == [xs[0], xs[1], xs[2], xs[3]];
    } else if |xs| > 4 {
      SextetsUnsextets(xs[4..]);
      UnsextetsSplit(xs);
      var g := UngroupFull(xs[0], xs[1], xs[2], xs[3]).value;
      GroupUngroupFull(xs[0], xs[1], xs[2], xs[3]);
      SextetsCons(g, Unsextets(xs[4..]).value);
      ConsFour(xs);
    }
  }

  // Six-bit values and characters, whole sequences

  lemma UnrenderRender(xs: seq<int>)
    requires AllSextets(xs)
    ensures Unrender(Render(xs)) == Some(xs)
  {
    var s := Render(xs);
    forall i | 0 <= i < |xs|
      ensures IsOutputChar(s[i]) && (if s[i] == Pad then PadValue else Value(s[i])) == xs[i]
    {
      if xs[i] != PadValue {
        ValueSymbol(xs[i]);
      }
    }
    assert forall i :: 0 <= i < |s| ==> IsOutputChar(s[i]);
    assert Unrender(s).value == xs;
  }

  lemma RenderUnrender(s: string)
    requires Unrender(s).Some?
    ensures AllSextets(Unrender(s).value) && Render(Unrender(s).value) == s
  {
    var xs := Unrender(s).value;
    forall i | 0 <= i < |s|
      ensures IsSextet(xs[i]) && (if xs[i] == PadValue then Pad else Symbol(xs[i])) == s[i]
    {
      if s[i] != Pad {
        SymbolValue(s[i]);
      }
    }
  }

  // Properties of the codec

  /** Decoding an encoding gives back the bytes. */
  lemma DecodeEncode(b: seq<byte>)
    ensures Decode(Encode(b)) == Some(b)
  {
    UnrenderRender(Sextets(b));
    UnsextetsSextets(b);
  }

  /** The decoder accepts only encodings: whatever it decodes re-encodes to the same text. */
  lemma EncodeDecode(s: string)
    requires Decode(s).Some?
    ensures Encode(Decode(s).value) == s
  {
    RenderUnrender(s);
    SextetsUnsextets(Unrender(s).value);
  }

  /** Decoding and encoding are inverse: `s` decodes to `b` exactly when `s` is `b`'s encoding. */
  lemma DecodeIffEncode(s: string, b: seq<byte>)
    ensures Decode(s) == Some(b) <==> Encode(b) == s
  {
    if Decode(s) == Some(b) {
      EncodeDecode(s);
    }
    if Encode(b) == s {
      DecodeEncode(b);
    }
  }

  /** Pads stand only in the last two places of the six-bit sequence. */
  lemma {:induction false} SextetsPadAtEnd(b: seq<byte>)
    ensures forall i :: 0 <= i < |Sextets(b)| && Sextets(b)[i] == PadValue ==> |Sextets(b)| - 2 <= i
    decreases |b|
  {
    if |b| > 3 {
      SextetsPadAtEnd(b[3..]);
      var head, tail := GroupThree(b[0], b[1], b[2]), Sextets(b[3..]);
      assert Sextets(b) == head + tail;
      forall i | 0 <= i < |head + tail| && (head + tail)[i] == PadValue
        ensures |head + tail| - 2 <= i
      {
        assert i >= 4 && (head + tail)[i] == tail[i - 4];
      }
    }
  }

  /** Every character of an encoding is in the alphabet or a pad, and pads only end it. */
  lemma EncodeAlphabet(b: seq<byte>)
    ensures forall i :: 0 <= i < |Encode(b)| ==> IsOutputChar(Encode(b)[i])
    ensures forall i :: 0 <= i < |Encode(b)| && Encode(b)[i] == Pad ==> |Encode(b)| - 2 <= i
  {
    SextetsPadAtEnd(b);
  }

  /** A base 64 encoding never contains the full stop that separates the signature's fields. */
  lemma NoDotInEncode(b: seq<byte>)
    ensures '.' !in Encode(b)
  {
    EncodeAlphabet(b);
  }
}
