/**
 The encoding workers' keys are turned into credentials with (section 4 of RFC 4648), and a
 decoder that undoes it. Shifts and masks of bytes are written as quotients and remainders.
 */
module Base64 {
  import opened Arith

  type Byte = b: int | 0 <= b < 256

  type Sextet = s: int | 0 <= s < 64

  /** Character i of the encoding table. */
  function Letter(i: Sextet): char {
    if i < 26 then 'A' + i as char
    else if i < 52 then 'a' + (i - 26) as char
    else if i < 62 then '0' + (i - 52) as char
    else if i == 62 then '+' else '/'
  }

  function Value(c: char): Option<Sextet> {
    if 'A' <= c <= 'Z' then Some(c as int - 'A' as int)
    else if 'a' <= c <= 'z' then Some(c as int - 'a' as int + 26)
    else if '0' <= c <= '9' then Some(c as int - '0' as int + 52)
    else if c == '+' then Some(62) else if c == '/' then Some(63) else None
  }

  lemma LetterHasValue(i: Sextet)
    ensures Value(Letter(i)) == Some(i) && Letter(i) != '='
  {
  }

  /** The table itself, in character codes. */
  lemma LetterIs(i: Sextet)
    ensures Letter(i) as int ==
      if i <= 25 then 65 + i else if i <= 51 then 97 + (i - 26) else if i <= 61 then 48 + (i - 52)
      else if i == 62 then 43 else 47
  {
  }

  /** The characters of one block of one, two or three bytes. */
  function EncodeBlock(block: seq<Byte>): (r: string)
    requires 1 <= |block| <= 3
    ensures |r| == 4
  {
    var b0 := block[0];
    if |block| == 1 then [Letter(b0 / 4), Letter(b0 % 4 * 16), '=', '=']
    else
      var b1 := block[1];
      var second := Letter(b0 % 4 * 16 + b1 / 16);
      if |block| == 2 then [Letter(b0 / 4), second, Letter(b1 % 16 * 4), '=']
      else [Letter(b0 / 4), second, Letter(b1 % 16 * 4 + block[2] / 64), Letter(block[2] % 64)]
  }

  function Encode(src: seq<Byte>): (r: string)
    ensures |r| == 4 * ((|src| + 2) / 3)
  {
    if src == [] then []
    else if |src| <= 3 then EncodeBlock(src)
    else EncodeBlock(src[..3]) + Encode(src[3..])
  }

  /** Three bytes and their four characters spell the same number, the first byte and character highest. */
  lemma BlockIsNumber(b0: Byte, b1: Byte, b2: Byte, s0: Sextet, s1: Sextet, s2: Sextet, s3: Sextet)
    ensures EncodeBlock([b0, b1, b2]) == [Letter(s0), Letter(s1), Letter(s2), Letter(s3)]
            <==> 0x4_0000 * s0 + 0x1000 * s1 + 0x40 * s2 + s3 == 0x1_0000 * b0 + 0x100 * b1 + b2
  {
    var t0: Sextet, t1: Sextet, t2: Sextet, t3: Sextet :=
      b0 / 4, b0 % 4 * 16 + b1 / 16, b1 % 16 * 4 + b2 / 64, b2 % 64;
    var text := EncodeBlock([b0, b1, b2]);
    assert text == [Letter(t0), Letter(t1), Letter(t2), Letter(t3)];
    SpellsNumber(b0, b1, b2);
    if 0x4_0000 * s0 + 0x1000 * s1 + 0x40 * s2 + s3 == 0x1_0000 * b0 + 0x100 * b1 + b2 {
      SameSextets(s0, s1, s2, s3, t0, t1, t2, t3);
    }
    LetterHasValue(s0);
    LetterHasValue(s1);
    LetterHasValue(s2);
    LetterHasValue(s3);
    LetterHasValue(t0);
    LetterHasValue(t1);
    LetterHasValue(t2);
    LetterHasValue(t3);
    if text == [Letter(s0), Letter(s1), Letter(s2), Letter(s3)] {
      assert text[0] == Letter(s0) && text[1] == Letter(s1) && text[2] == Letter(s2) && text[3] == Letter(s3);
    }
  }

  lemma SpellsNumber(b0: Byte, b1: Byte, b2: Byte)
    ensures 0x4_0000 * (b0 / 4) + 0x1000 * (b0 % 4 * 16 + b1 / 16) + 0x40 * (b1 % 16 * 4 + b2 / 64) + b2 % 64
            == 0x1_0000 * b0 + 0x100 * b1 + b2
  {
  }

  lemma SameSextets(
    s0: Sextet, s1: Sextet, s2: Sextet, s3: Sextet, t0: Sextet, t1: Sextet, t2: Sextet, t3: Sextet)
    requires 0x4_0000 * s0 + 0x1000 * s1 + 0x40 * s2 + s3 == 0x4_0000 * t0 + 0x1000 * t1 + 0x40 * t2 + t3
    ensures (s0, s1, s2, s3) == (t0, t1, t2, t3)
  {
  }

  /** A short block is filled up with zero bytes, and what they alone would give is '='. */
  lemma ShortBlocksArePadded(b0: Byte, b1: Byte)
    ensures EncodeBlock([b0]) == EncodeBlock([b0, 0, 0])[..2] + "=="
    ensures EncodeBlock([b0, b1]) == EncodeBlock([b0, b1, 0])[..3] + "="
  {
  }

  function DecodeBlock(q: string): Option<seq<Byte>>
    requires |q| == 4
  {
    match (Value(q[0]), Value(q[1]))
    case (Some(s0), Some(s1)) =>
      var b0: Byte := s0 * 4 + s1 / 16;
      if q[2] == '=' && q[3] == '=' then (if s1 % 16 == 0 then Some([b0]) else None)
      else (
        match Value(q[2])
        case None => None
        case Some(s2) =>
          var b1: Byte := s1 % 16 * 16 + s2 / 4;
          if q[3] == '=' then (if s2 % 4 == 0 then Some([b0, b1]) else None)
          else (
            match Value(q[3])
            case None => None
            case Some(s3) => Some([b0, b1, s2 % 4 * 64 + s3])))
    case _ => None
  }

  /** Only the last block may be short. */
  function Decode(text: string): Option<seq<Byte>> {
    if text == [] then Some([])
    else if |text| < 4 then None
    else
      match DecodeBlock(text[..4])
      case None => None
      case Some(block) =>
        if |text| == 4 then Some(block)
        else if |block| < 3 then None
        else
          match Decode(text[4..])
          case None => None
          case Some(rest) => Some(block + rest)
  }

  lemma BlockRoundTrip(block: seq<Byte>)
    requires 1 <= |block| <= 3
    ensures DecodeBlock(EncodeBlock(block)) == Some(block)
  {
    if |block| == 1 {
      OneByteRoundTrip(block[0]);
      assert block == [block[0]];
    } else if |block| == 2 {
      TwoByteRoundTrip(block[0], block[1]);
      assert block == [block[0], block[1]];
    } else {
      ThreeByteRoundTrip(block[0], block[1], block[2]);
      assert block == [block[0], block[1], block[2]];
    }
  }

  lemma OneByteRoundTrip(b0: Byte)
    ensures DecodeBlock(EncodeBlock([b0])) == Some([b0])
  {
    LetterHasValue(b0 / 4);
    LetterHasValue(b0 % 4 * 16);
  }

  lemma TwoByteRoundTrip(b0: Byte, b1: Byte)
    ensures DecodeBlock(EncodeBlock([b0, b1])) == Some([b0, b1])
  {
    LetterHasValue(b0 / 4);
    LetterHasValue(b0 % 4 * 16 + b1 / 16);
    LetterHasValue(b1 % 16 * 4);
  }

  lemma ThreeByteRoundTrip(b0: Byte, b1: Byte, b2: Byte)
    ensures DecodeBlock(EncodeBlock([b0, b1, b2])) == Some([b0, b1, b2])
  {
    var s0, s1, s2, s3 := b0 / 4, b0 % 4 * 16 + b1 / 16, b1 % 16 * 4 + b2 / 64, b2 % 64;
    LetterHasValue(s0);
    LetterHasValue(s1);
    LetterHasValue(s2);
    LetterHasValue(s3);
    SextetsMakeBytes(b0, b1, b2);
    DecodeWhole(Letter(s0), Letter(s1), Letter(s2), Letter(s3), s0, s1, s2, s3);
  }

  /** Shifting the pieces of the bytes back together. */
  lemma SextetsMakeBytes(b0: Byte, b1: Byte, b2: Byte)
    ensures var s0, s1, s2, s3 := b0 / 4, b0 % 4 * 16 + b1 / 16, b1 % 16 * 4 + b2 / 64, b2 % 64;
      s0 * 4 + s1 / 16 == b0 && s1 % 16 * 16 + s2 / 4 == b1 && s2 % 4 * 64 + s3 == b2
  {
  }

  lemma DecodeWhole(c0: char, c1: char, c2: char, c3: char, s0: Sextet, s1: Sextet, s2: Sextet, s3: Sextet)
    requires Value(c0) == Some(s0) && Value(c1) == Some(s1) && Value(c2) == Some(s2) && Value(c3) == Some(s3)
    ensures DecodeBlock([c0, c1, c2, c3]) == Some([s0 * 4 + s1 / 16, s1 % 16 * 16 + s2 / 4, s2 % 4 * 64 + s3])
  {
  }

  /** Decoding inverts encoding on every byte string. */
  lemma {:induction false} RoundTrip(src: seq<Byte>)
    ensures Decode(Encode(src)) == Some(src)
  {
    if src != [] {
      if |src| <= 3 {
        BlockRoundTrip(src);
        assert Encode(src)[..4] == EncodeBlock(src);
      } else {
        BlockRoundTrip(src[..3]);
        RoundTrip(src[3..]);
        assert Encode(src)[..4] == EncodeBlock(src[..3]);
        assert Encode(src)[4..] == Encode(src[3..]);
        assert src == src[..3] + src[3..];
      }
    }
  }

  /** Different keys make different credentials. */
  lemma EncodeIsInjective(a: seq<Byte>, b: seq<Byte>)
    ensures Encode(a) == Encode(b) <==> a == b
  {
    RoundTrip(a);
    RoundTrip(b);
  }

  method PutWholeBlock(buffer: array<char>, pos: nat, b0: Byte, b1: Byte, b2: Byte)
    requires pos + 4 <= buffer.Length
    modifies buffer
    ensures buffer[..pos + 4] == old(buffer[..pos]) + EncodeBlock([b0, b1, b2])
  {
    buffer[pos] := Letter(b0 / 4);
    buffer[pos + 1] := Letter(b0 % 4 * 16 + b1 / 16);
    buffer[pos + 2] := Letter(b1 % 16 * 4 + b2 / 64);
    buffer[pos + 3] := Letter(b2 % 64);
  }

  method PutShortBlock(buffer: array<char>, pos: nat, tail: seq<Byte>)
    requires pos + 4 <= buffer.Length && 1 <= |tail| <= 2
    modifies buffer
    ensures buffer[..pos + 4] == old(buffer[..pos]) + EncodeBlock(tail)
  {
    buffer[pos] := Letter(tail[0] / 4);
    if |tail| == 1 {
      buffer[pos + 1] := Letter(tail[0] % 4 * 16);
      buffer[pos + 2] := '=';
    } else {
      buffer[pos + 1] := Letter(tail[0] % 4 * 16 + tail[1] / 16);
      buffer[pos + 2] := Letter(tail[1] % 16 * 4);
    }
    buffer[pos + 3] := '=';
  }

  /** The encoding, written from position pos of the buffer on for the bytes from next on. */
  ghost predicate Written(src: seq<Byte>, next: nat, done: string, olen: nat)
    requires next <= |src|
  {
    done + Encode(src[next..]) == Encode(src) && |done| + |Encode(src[next..])| == olen
  }

  lemma WriteBlock(src: seq<Byte>, next: nat, done: string, olen: nat)
    requires next + 3 <= |src| && Written(src, next, done, olen)
    ensures Written(src, next + 3, done + EncodeBlock([src[next], src[next + 1], src[next + 2]]), olen)
    ensures |done| + 4 <= olen
  {
    BlockAhead(src, next);
    assert src[next..next + 3] == [src[next], src[next + 1], src[next + 2]];
    Reassociate(done, EncodeBlock(src[next..next + 3]), Encode(src[next + 3..]));
  }

  lemma Reassociate(a: string, b: string, c: string)
    ensures (a + b) + c == a + (b + c)
  {
  }

  /** What is left when fewer than three bytes are. */
  lemma LastBlock(src: seq<Byte>, next: nat, done: string, olen: nat)
    requires next <= |src| < next + 3 && Written(src, next, done, olen)
    ensures next == |src| ==> done == Encode(src) && |done| == olen
    ensures next < |src| ==> done + EncodeBlock(src[next..]) == Encode(src) && |done| + 4 == olen
  {
    if next == |src| { assert src[next..] == []; }
  }

  /** The output length, computed in 64-bit words. */
  function OutputLength(len: nat): nat {
    (4 * (((len + 2) % TWO_TO_64) / 3)) % TWO_TO_64
  }

  /** The overflow check finds exactly the lengths whose encoding has too many characters. */
  lemma OverflowIsFound(len: nat)
    requires len < TWO_TO_64
    ensures OutputLength(len) < len <==> 4 * ((len + 2) / 3) >= TWO_TO_64
    ensures OutputLength(len) >= len ==> OutputLength(len) == 4 * ((len + 2) / 3)
  {
  }

  /** base64_encode: where the output length overflows a 64-bit word, the result is empty. */
  method Base64Encode(src: seq<Byte>) returns (out: string)
    requires |src| < TWO_TO_64
    ensures out == if 4 * ((|src| + 2) / 3) < TWO_TO_64 then Encode(src) else []
  {
    var olen := OutputLength(|src|);
    OverflowIsFound(|src|);
    if olen < |src| {
      return [];
    }
    var buffer := new char[olen];
    var next, pos := 0, 0;
    while |src| - next >= 3
      invariant next <= |src| && pos <= olen
      invariant Written(src, next, buffer[..pos], olen)
    {
      WriteBlock(src, next, buffer[..pos], olen);
      PutWholeBlock(buffer, pos, src[next], src[next + 1], src[next + 2]);
      pos := pos + 4;
      next := next + 3;
    }
    LastBlock(src, next, buffer[..pos], olen);
    if next < |src| {
      PutShortBlock(buffer, pos, src[next..]);
      pos := pos + 4;
    }
    out := buffer[..];
  }

  lemma BlockAhead(src: seq<Byte>, next: nat)
    requires next + 3 <= |src|
    ensures Encode(src[next..]) == EncodeBlock(src[next..next + 3]) + Encode(src[next + 3..])
  {
    var rest := src[next..];
    assert rest[..3] == src[next..next + 3] && rest[3..] == src[next + 3..];
    if |rest| == 3 { assert rest[..3] == rest; }
  }
}
