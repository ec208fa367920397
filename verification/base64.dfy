/** `base64.urlsafe_b64decode` as CPython runs it: the str must be ASCII, `-`
    and `_` are translated to `+` and `/`, and the result goes through the
    non-strict `binascii.a2b_base64`, which skips characters outside the
    alphabet, ignores `=` that cannot end a quad, and stops at the first `=`
    that completes one. The decoder is a state machine over the characters;
    `Encode` (the unpadded Base64URL of section 5 of RFC 4648, as JWT segments
    use it) is its partner. */
module Base64 {
  import opened Wrappers
  import opened Errors

  newtype byte = x: int | 0 <= x < 256

  /** The 6-bit value of a character in the translated alphabet, if any. */
  function Sextet(c: char): (r: Option<nat>)
    ensures r.Some? ==> r.value < 64 && c != '=' && (c as int) < 128
  {
    if 'A' <= c <= 'Z' then Some(c as int - 'A' as int)
    else if 'a' <= c <= 'z' then Some(c as int - 'a' as int + 26)
    else if '0' <= c <= '9' then Some(c as int - '0' as int + 52)
    else if c == '+' || c == '-' then Some(62)
    else if c == '/' || c == '_' then Some(63)
    else None
  }

  /** The Base64URL character for a 6-bit value. */
  function EncodeChar(v: nat): (c: char)
    requires v < 64
    ensures Sextet(c) == Some(v)
  {
    if v < 26 then ('A' as int + v) as char
    else if v < 52 then ('a' as int + v - 26) as char
    else if v < 62 then ('0' as int + v - 52) as char
    else if v == 62 then '-'
    else '_'
  }

  /** The decoder's registers: position in the current quad, the bits left
      over from the previous character, the `=` run length, and the output. */
  datatype Decoder = Decoder(quad: nat, left: nat, pads: nat, out: seq<byte>)

  const Start := Decoder(0, 0, 0, [])

  /** A C assignment to an `unsigned char`. */
  function ToByte(n: int): byte
  {
    (n % 256) as byte
  }

  /** Consumes one data character with 6-bit value `v`. The bit fields that
      C combines with `|` do not overlap, so `+` computes the same byte. */
  function Feed(d: Decoder, v: nat): Decoder
  {
    if d.quad == 0 then Decoder(1, v, 0, d.out)
    else if d.quad == 1 then Decoder(2, v % 16, 0, d.out + [ToByte(d.left * 4 + v / 16)])
    else if d.quad == 2 then Decoder(3, v % 4, 0, d.out + [ToByte(d.left * 16 + v / 4)])
    else Decoder(0, 0, 0, d.out + [ToByte(d.left * 64 + v)])
  }

  /** The main loop of non-strict `a2b_base64` from state `d`. */
  function Run(s: string, d: Decoder): (r: Result<seq<byte>, Error>)
    ensures r.Err? ==> r.error == Base64DataLength || r.error == Base64Padding
    decreases |s|
  {
    if |s| == 0 then
      if d.quad == 0 then Ok(d.out)
      else if d.quad == 1 then Err(Base64DataLength)
      else Err(Base64Padding)
    else if s[0] == '=' then
      if d.quad >= 2 && d.quad + d.pads + 1 >= 4 then Ok(d.out)
      else Run(s[1..], if d.quad >= 2 then d.(pads := d.pads + 1) else d)
    else
      match Sextet(s[0])
      case None => Run(s[1..], d)
      case Some(v) => Run(s[1..], Feed(d, v))
  }

  predicate IsAscii(s: string)
  {
    forall i :: 0 <= i < |s| ==> (s[i] as int) < 128
  }

  /** `base64.urlsafe_b64decode` applied to a str. */
  function UrlSafeDecode(s: string): (r: Result<seq<byte>, Error>)
    ensures !IsAscii(s) ==> r == Err(NonAsciiPayload)
    ensures r.Err? ==> r.error in {NonAsciiPayload, Base64DataLength, Base64Padding}
  {
    if !IsAscii(s) then Err(NonAsciiPayload) else Run(s, Start)
  }

  /** Unpadded Base64URL encoding, three bytes to four characters. */
  function Encode(b: seq<byte>): (s: string)
    ensures DataOnly(s)
  {
    if |b| == 0 then ""
    else if |b| == 1 then EncodeOne(b[0])
    else if |b| == 2 then EncodeTwo(b[0], b[1])
    else EncodeThree(b[0], b[1], b[2]) + Encode(b[3..])
  }

  /** A final single byte: two characters. */
  function EncodeOne(x: byte): (s: string)
    ensures DataOnly(s)
  {
    [EncodeChar(x as int / 4), EncodeChar(x as int % 4 * 16)]
  }

  /** A final pair of bytes: three characters. */
  function EncodeTwo(x: byte, y: byte): (s: string)
    ensures DataOnly(s)
  {
    [EncodeChar(x as int / 4), EncodeChar(x as int % 4 * 16 + y as int / 16), EncodeChar(y as int % 16 * 4)]
  }

  /** Three bytes: one quad. */
  function EncodeThree(x: byte, y: byte, z: byte): (s: string)
    ensures DataOnly(s)
  {
    [ EncodeChar(x as int / 4), EncodeChar(x as int % 4 * 16 + y as int / 16),
      EncodeChar(y as int % 16 * 4 + z as int / 64), EncodeChar(z as int % 64) ]
  }

  /** Every character is in the alphabet (so none is `=` and all are ASCII). */
  predicate DataOnly(s: string)
  {
    forall i :: 0 <= i < |s| ==> Sextet(s[i]).Some?
  }

  /** `.` is not in the alphabet, so a data-only string holds none. */
  lemma DataOnlyHasNoDot(s: string)
    requires DataOnly(s)
    ensures '.' !in s
  {
  }

  /** A non-ASCII character anywhere makes decoding raise, whatever follows. */
  lemma NonAsciiRejected(s: string, t: string)
    requires !IsAscii(s)
    ensures UrlSafeDecode(s + t) == Err(NonAsciiPayload)
  {
    var i :| 0 <= i < |s| && (s[i] as int) >= 128;
    assert (s + t)[i] == s[i];
  }

  predicate AllPads(s: string)
  {
    forall i :: 0 <= i < |s| ==> s[i] == '='
  }

  /** The decoder state after consuming the data characters `s`. */
  function FeedAll(s: string, d: Decoder): Decoder
    requires DataOnly(s)
    decreases |s|
  {
    if |s| == 0 then d else FeedAll(s[1..], Feed(d, Sextet(s[0]).value))
  }

  /** Consuming data characters only moves the quad position and clears the
      `=` run. */
  lemma {:induction false} FeedAllQuad(s: string, d: Decoder)
    requires DataOnly(s)
    requires d.quad < 4
    ensures FeedAll(s, d).quad == (d.quad + |s|) % 4
    ensures |s| > 0 || d.pads == 0 ==> FeedAll(s, d).pads == 0
    decreases |s|
  {
    if |s| > 0 {
      FeedAllQuad(s[1..], Feed(d, Sextet(s[0]).value));
    }
  }

  /** Running over data characters followed by `t` is running over `t` from
      the state those characters leave. */
  lemma {:induction false} RunData(s: string, t: string, d: Decoder)
    requires DataOnly(s)
    ensures Run(s + t, d) == Run(t, FeedAll(s, d))
    decreases |s|
  {
    if |s| > 0 {
      assert (s + t)[0] == s[0] && s[0] != '=';
      assert (s + t)[1..] == s[1..] + t;
      RunData(s[1..], t, Feed(d, Sextet(s[0]).value));
    } else {
      assert s + t == t;
    }
  }

  /** A run of `=` ends the decoding: in a fresh quad every `=` is ignored; two
      into a quad, the second `=` finishes it; three into a quad, the first does;
      one into a quad, the input is one data character too long. */
  lemma {:induction false} RunPads(p: string, d: Decoder)
    requires AllPads(p)
    requires d.quad < 4 && d.pads == 0
    ensures d.quad == 0 ==> Run(p, d) == Ok(d.out)
    ensures d.quad == 1 ==> Run(p, d) == Err(Base64DataLength)
    ensures d.quad == 2 && |p| >= 2 ==> Run(p, d) == Ok(d.out)
    ensures d.quad == 2 && |p| < 2 ==> Run(p, d) == Err(Base64Padding)
    ensures d.quad == 3 && |p| >= 1 ==> Run(p, d) == Ok(d.out)
    ensures d.quad == 3 && |p| == 0 ==> Run(p, d) == Err(Base64Padding)
    decreases |p|
  {
    if |p| > 0 && d.quad < 2 {
      RunPads(p[1..], d);
    } else if |p| > 0 && d.quad == 2 {
      assert Run(p, d) == Run(p[1..], d.(pads := 1));
      if |p| == 1 {
        assert Run(p[1..], d.(pads := 1)) == Err(Base64Padding);
      }
    }
  }

  /** The decoder's byte arithmetic inverts the encoder's, for one byte. */
  lemma OneByte(x: int)
    requires 0 <= x < 256
    ensures ToByte(x / 4 * 4 + x % 4 * 16 / 16) as int == x
  {
  }

  /** ... for two bytes. */
  lemma TwoBytes(x: int, y: int)
    requires 0 <= x < 256 && 0 <= y < 256
    ensures ToByte(x / 4 * 4 + (x % 4 * 16 + y / 16) / 16) as int == x
    ensures ToByte((x % 4 * 16 + y / 16) % 16 * 16 + y % 16 * 4 / 4) as int == y
  {
    assert (x % 4 * 16 + y / 16) / 16 == x % 4;
    assert (x % 4 * 16 + y / 16) % 16 == y / 16;
  }

  /** ... for a whole quad. */
  lemma ThreeBytes(x: int, y: int, z: int)
    requires 0 <= x < 256 && 0 <= y < 256 && 0 <= z < 256
    ensures ToByte(x / 4 * 4 + (x % 4 * 16 + y / 16) / 16) as int == x
    ensures ToByte((x % 4 * 16 + y / 16) % 16 * 16 + (y % 16 * 4 + z / 64) / 4) as int == y
    ensures ToByte((y % 16 * 4 + z / 64) % 4 * 64 + z % 64) as int == z
  {
    assert (x % 4 * 16 + y / 16) / 16 == x % 4;
    assert (x % 4 * 16 + y / 16) % 16 == y / 16;
    assert (y % 16 * 4 + z / 64) / 4 == y % 16;
    assert (y % 16 * 4 + z / 64) % 4 == z / 64;
  }

  /** Feeding one character is one step of `FeedAll`. */
  lemma FeedAllCons(c: char, s: string, d: Decoder)
    requires Sextet(c).Some? && DataOnly(s)
    ensures DataOnly([c] + s)
    ensures FeedAll([c] + s, d) == FeedAll(s, Feed(d, Sextet(c).value))
  {
    assert ([c] + s)[1..] == s;
  }

  /** Decoding two characters. */
  lemma FeedChars2(v0: nat, v1: nat, acc: seq<byte>)
    requires v0 < 64 && v1 < 64
    ensures var s := [EncodeChar(v0), EncodeChar(v1)];
      DataOnly(s) && FeedAll(s, Decoder(0, 0, 0, acc)) == Decoder(2, v1 % 16, 0, acc + [ToByte(v0 * 4 + v1 / 16)])
  {
    var c0, c1 := EncodeChar(v0), EncodeChar(v1);
    FeedAllCons(c1, "", Feed(Decoder(0, 0, 0, acc), v0));
    FeedAllCons(c0, [c1], Decoder(0, 0, 0, acc));
    assert [c1] + "" == [c1];
    assert [c0] + [c1] == [c0, c1];
  }

  /** Decoding three characters. */
  lemma FeedChars3(v0: nat, v1: nat, v2: nat, acc: seq<byte>)
    requires v0 < 64 && v1 < 64 && v2 < 64
    ensures var s := [EncodeChar(v0), EncodeChar(v1), EncodeChar(v2)];
      DataOnly(s) && FeedAll(s, Decoder(0, 0, 0, acc))
        == Decoder(3, v2 % 4, 0, acc + [ToByte(v0 * 4 + v1 / 16), ToByte(v1 % 16 * 16 + v2 / 4)])
  {
    var s := [EncodeChar(v0), EncodeChar(v1), EncodeChar(v2)];
    var b0, b1 := ToByte(v0 * 4 + v1 / 16), ToByte(v1 % 16 * 16 + v2 / 4);
    FeedChars2(v0, v1, acc);
    assert s[..2] == [EncodeChar(v0), EncodeChar(v1)];
    FeedAllSnoc(s[..2], s[2], Decoder(0, 0, 0, acc));
    assert s == s[..2] + [s[2]];
    assert FeedAll(s, Decoder(0, 0, 0, acc)) == Feed(Decoder(2, v1 % 16, 0, acc + [b0]), v2);
    assert acc + [b0] + [b1] == acc + [b0, b1];
  }

  /** Decoding four characters completes a quad. */
  lemma FeedChars4(v0: nat, v1: nat, v2: nat, v3: nat, acc: seq<byte>)
    requires v0 < 64 && v1 < 64 && v2 < 64 && v3 < 64
    ensures var s := [EncodeChar(v0), EncodeChar(v1), EncodeChar(v2), EncodeChar(v3)];
      DataOnly(s) && FeedAll(s, Decoder(0, 0, 0, acc))
        == Decoder(0, 0, 0, acc + [ToByte(v0 * 4 + v1 / 16), ToByte(v1 % 16 * 16 + v2 / 4), ToByte(v2 % 4 * 64 + v3)])
  {
    var s := [EncodeChar(v0), EncodeChar(v1), EncodeChar(v2), EncodeChar(v3)];
    var b0, b1, b2 := ToByte(v0 * 4 + v1 / 16), ToByte(v1 % 16 * 16 + v2 / 4), ToByte(v2 % 4 * 64 + v3);
    FeedChars3(v0, v1, v2, acc);
    assert s[..3] == [EncodeChar(v0), EncodeChar(v1), EncodeChar(v2)];
    FeedAllSnoc(s[..3], s[3], Decoder(0, 0, 0, acc));
    assert s == s[..3] + [s[3]];
    assert FeedAll(s, Decoder(0, 0, 0, acc)) == Feed(Decoder(3, v2 % 4, 0, acc + [b0, b1]), v3);
    assert acc + [b0, b1] + [b2] == acc + [b0, b1, b2];
  }

  /** Feeding one more character after `s`. */
  lemma {:induction false} FeedAllSnoc(s: string, c: char, d: Decoder)
    requires DataOnly(s) && Sextet(c).Some?
    ensures DataOnly(s + [c])
    ensures FeedAll(s + [c], d) == Feed(FeedAll(s, d), Sextet(c).value)
    decreases |s|
  {
    if |s| == 0 {
      assert s + [c] == [c] + "";
      FeedAllCons(c, "", d);
    } else {
      assert s + [c] == [s[0]] + (s[1..] + [c]);
      FeedAllSnoc(s[1..], c, Feed(d, Sextet(s[0]).value));
      FeedAllCons(s[0], s[1..] + [c], d);
    }
  }

  /** One byte is two characters of the encoding. */
  lemma FeedOne(x: byte, acc: seq<byte>)
    ensures var d := FeedAll(EncodeOne(x), Decoder(0, 0, 0, acc));
      d.quad == 2 && d.pads == 0 && d.out == acc + [x]
  {
    var v0, v1 := x as int / 4, x as int % 4 * 16;
    assert ToByte(v0 * 4 + v1 / 16) == x by {
      OneByte(x as int);
    }
    FeedChars2(v0, v1, acc);
  }

  /** Two bytes are three characters of the encoding. */
  lemma FeedTwo(x: byte, y: byte, acc: seq<byte>)
    ensures var d := FeedAll(EncodeTwo(x, y), Decoder(0, 0, 0, acc));
      d.quad == 3 && d.pads == 0 && d.out == acc + [x, y]
  {
    var v0, v1, v2 := x as int / 4, x as int % 4 * 16 + y as int / 16, y as int % 16 * 4;
    assert ToByte(v0 * 4 + v1 / 16) == x && ToByte(v1 % 16 * 16 + v2 / 4) == y by {
      TwoBytes(x as int, y as int);
    }
    FeedChars3(v0, v1, v2, acc);
  }

  /** Three bytes are one whole quad of the encoding. */
  lemma FeedThree(x: byte, y: byte, z: byte, acc: seq<byte>)
    ensures FeedAll(EncodeThree(x, y, z), Decoder(0, 0, 0, acc)) == Decoder(0, 0, 0, acc + [x, y, z])
  {
    var v0, v1 := x as int / 4, x as int % 4 * 16 + y as int / 16;
    var v2, v3 := y as int % 16 * 4 + z as int / 64, z as int % 64;
    assert ToByte(v0 * 4 + v1 / 16) == x
      && ToByte(v1 % 16 * 16 + v2 / 4) == y
      && ToByte(v2 % 4 * 64 + v3) == z by {
      ThreeBytes(x as int, y as int, z as int);
    }
    FeedChars4(v0, v1, v2, v3, acc);
  }

  /** The number of `=` the decoder needs after the encoding of `n` bytes:
      none after whole quads, two after two characters, one after three. */
  function PadsNeeded(n: nat): nat
  {
    if n % 3 == 0 then 0 else if n % 3 == 1 then 2 else 1
  }

  /** A final single byte and at least two `=` decode to that byte. */
  lemma RunEncodedOne(x: byte, p: string, acc: seq<byte>)
    requires AllPads(p) && |p| >= 2
    ensures Run(EncodeOne(x) + p, Decoder(0, 0, 0, acc)) == Ok(acc + [x])
  {
    var d := Decoder(0, 0, 0, acc);
    RunData(EncodeOne(x), p, d);
    FeedOne(x, acc);
    RunPads(p, FeedAll(EncodeOne(x), d));
  }

  /** A final pair of bytes and at least one `=` decode to that pair. */
  lemma RunEncodedTwo(x: byte, y: byte, p: string, acc: seq<byte>)
    requires AllPads(p) && |p| >= 1
    ensures Run(EncodeTwo(x, y) + p, Decoder(0, 0, 0, acc)) == Ok(acc + [x, y])
  {
    var d := Decoder(0, 0, 0, acc);
    RunData(EncodeTwo(x, y), p, d);
    FeedTwo(x, y, acc);
    RunPads(p, FeedAll(EncodeTwo(x, y), d));
  }

  /** The first quad of a long encoding decodes to its three bytes. */
  lemma RunEncodedQuad(b: seq<byte>, p: string, acc: seq<byte>)
    requires |b| >= 3
    ensures Run(Encode(b) + p, Decoder(0, 0, 0, acc))
      == Run(Encode(b[3..]) + p, Decoder(0, 0, 0, acc + [b[0], b[1], b[2]]))
  {
    var q := EncodeThree(b[0], b[1], b[2]);
    var rest := Encode(b[3..]);
    assert Encode(b) + p == q + (rest + p);
    FeedThree(b[0], b[1], b[2], acc);
    RunData(q, rest + p, Decoder(0, 0, 0, acc));
  }

  /** The last, partial group of an encoding followed by enough `=` decodes
      back to its bytes. */
  lemma RunEncodedShort(b: seq<byte>, p: string, acc: seq<byte>)
    requires |b| < 3
    requires AllPads(p) && |p| >= PadsNeeded(|b|)
    ensures Run(Encode(b) + p, Decoder(0, 0, 0, acc)) == Ok(acc + b)
  {
    if |b| == 0 {
      assert Encode(b) + p == p;
      RunPads(p, Decoder(0, 0, 0, acc));
      assert acc + b == acc;
    } else if |b| == 1 {
      assert b == [b[0]];
      assert Encode(b) == EncodeOne(b[0]);
      RunEncodedOne(b[0], p, acc);
    } else {
      assert b == [b[0], b[1]];
      assert Encode(b) == EncodeTwo(b[0], b[1]);
      RunEncodedTwo(b[0], b[1], p, acc);
    }
  }

  /** Dropping a whole group leaves the padding need unchanged. */
  lemma PadsNeededStep(n: nat)
    requires n >= 3
    ensures PadsNeeded(n - 3) == PadsNeeded(n)
  {
  }

  lemma AppendGroup(acc: seq<byte>, b: seq<byte>)
    requires |b| >= 3
    ensures acc + [b[0], b[1], b[2]] + b[3..] == acc + b
  {
    assert b == [b[0], b[1], b[2]] + b[3..];
  }

  /** The encoding of `b` followed by enough `=` decodes back to `b`. */
  lemma {:induction false} RunEncoded(b: seq<byte>, p: string, acc: seq<byte>)
    requires AllPads(p) && |p| >= PadsNeeded(|b|)
    ensures Run(Encode(b) + p, Decoder(0, 0, 0, acc)) == Ok(acc + b)
    decreases |b|
  {
    if |b| < 3 {
      RunEncodedShort(b, p, acc);
    } else {
      var acc' := acc + [b[0], b[1], b[2]];
      assert |p| >= PadsNeeded(|b[3..]|) by {
        PadsNeededStep(|b|);
      }
      RunEncoded(b[3..], p, acc');
      RunEncodedQuad(b, p, acc);
      assert acc' + b[3..] == acc + b by {
        AppendGroup(acc, b);
      }
    }
  }

  /** Decoding inverts encoding when enough `=` follow. */
  lemma DecodeEncode(b: seq<byte>, p: string)
    requires AllPads(p) && |p| >= PadsNeeded(|b|)
    ensures UrlSafeDecode(Encode(b) + p) == Ok(b)
  {
    var s := Encode(b) + p;
    assert IsAscii(s) by {
      forall i | 0 <= i < |s|
        ensures (s[i] as int) < 128
      {
        if i < |Encode(b)| {
          assert Sextet(Encode(b)[i]).Some?;
        }
      }
    }
    RunEncoded(b, p, []);
    assert [] + b == b;
  }

  /** The length of an encoding modulo four fixes the padding it needs. */
  lemma {:induction false} EncodeLength(b: seq<byte>)
    ensures |Encode(b)| % 4 == if |b| % 3 == 0 then 0 else |b| % 3 + 1
    decreases |b|
  {
    if |b| >= 3 {
      EncodeLength(b[3..]);
      assert |Encode(b)| == 4 + |Encode(b[3..])|;
      GroupStep(|b|, |Encode(b[3..])|);
    }
  }

  /** Dropping a group of three bytes keeps the byte count modulo three, and
      its four characters keep the length modulo four. */
  lemma GroupStep(n: nat, m: nat)
    requires n >= 3
    ensures (n - 3) % 3 == n % 3 && (m + 4) % 4 == m % 4
    ensures PadsNeeded(n - 3) == PadsNeeded(n)
  {
  }

  /** A data-only input padded with `=` up to a multiple of four decodes
      exactly when its length is not one more than a multiple of four. */
  lemma PaddedDataDecodes(s: string, p: string)
    requires DataOnly(s) && AllPads(p)
    requires 1 <= |p| <= 4 && (|s| + |p|) % 4 == 0
    ensures UrlSafeDecode(s + p).Ok? <==> |s| % 4 != 1
    ensures |s| % 4 == 1 ==> UrlSafeDecode(s + p) == Err(Base64DataLength)
  {
    assert IsAscii(s + p) by {
      forall i | 0 <= i < |s + p|
        ensures ((s + p)[i] as int) < 128
      {
        if i < |s| {
          assert Sextet(s[i]).Some?;
        }
      }
    }
    RunData(s, p, Start);
    FeedAllQuad(s, Start);
    RunPads(p, FeedAll(s, Start));
  }
}
