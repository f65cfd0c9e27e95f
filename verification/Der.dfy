/** The DER writers for public RSA keys in src/psa_key_storage.c, against X.690: the
    writers produce exactly the precomputed number of bytes, and a strict DER parser
    reads the two integers back from them. */
module Der {
  import opened Bytes
  import opened CcmStream
  import opened Psa

  // ----- lengths -----

  /** The number of base-256 digits of `n`. */
  function Digits(n: nat): nat {
    if n == 0 then 0 else 1 + Digits(n / 256)
  }

  lemma {:induction false} DigitsBound(n: nat)
    ensures n < Pow256(Digits(n))
    ensures n > 0 ==> Pow256(Digits(n) - 1) <= n
  {
    if n > 0 {
      DigitsBound(n / 256);
    }
  }

  lemma {:induction false} FewDigits(n: nat, k: nat)
    requires n < Pow256(k)
    ensures Digits(n) <= k
  {
    if n > 0 {
      FewDigits(n / 256, k - 1);
    }
  }

  /** Lengths up to 2^40, which covers two integers of word32 size. */
  const MAX_LENGTH: nat := 0x100_0000_0000

  lemma LengthDigits(n: nat)
    requires n < MAX_LENGTH
    ensures Digits(n) <= 5
  {
    assert Pow256(5) == MAX_LENGTH;
    FewDigits(n, 5);
  }

  /** X.690 section 10.1: the definite form in the fewest octets. */
  function EncodeLength(n: nat): (s: seq<byte>)
    requires n < MAX_LENGTH
    ensures |s| == if n < 128 then 1 else 1 + Digits(n)
  {
    LengthDigits(n);
    if n < 128 then [n] else [0x80 + Digits(n)] + BigEndian(n, Digits(n))
  }

  /** A definite length, refused unless it is in the fewest octets; the octets used with it. */
  function ParseLength(s: seq<byte>): Option<(nat, nat)> {
    if |s| == 0 then None
    else if s[0] < 128 then Some((s[0], 1))
    else
      var k := s[0] - 128;
      if k == 0 || |s| < 1 + k || s[1] == 0 then None
      else
        var n := Value(s[1..1 + k]);
        if n < 128 then None else Some((n, 1 + k))
  }

  lemma LengthParses(n: nat, rest: seq<byte>)
    requires n < MAX_LENGTH
    ensures ParseLength(EncodeLength(n) + rest) == Some((n, |EncodeLength(n)|))
  {
    LengthDigits(n);
    if n >= 128 {
      DigitsBound(n);
      DigitsOfPositive(n);
      ValueOfBigEndian(n, Digits(n));
      LeadingDigit(n, Digits(n));
      LongLengthParses(n, BigEndian(n, Digits(n)), rest);
    }
  }

  lemma LongLengthParses(n: nat, digits: seq<byte>, rest: seq<byte>)
    requires 128 <= n && 0 < |digits| < 128 && digits[0] != 0 && Value(digits) == n
    ensures ParseLength([0x80 + |digits|] + digits + rest) == Some((n, 1 + |digits|))
  {
    hide Value;
    var s := [0x80 + |digits|] + digits + rest;
    assert s[1..1 + |digits|] == digits;
  }

  lemma DigitsOfPositive(n: nat)
    requires n > 0
    ensures Digits(n) > 0
  {
  }

  /** The first octet is not zero when no fewer octets hold the value. */
  lemma LeadingDigit(n: nat, k: nat)
    requires k > 0 && Pow256(k - 1) <= n < Pow256(k)
    ensures BigEndian(n, k)[0] != 0
  {
    var s := BigEndian(n, k);
    ValueOfBigEndian(n, k);
    assert s == [s[0]] + s[1..];
    ValueOfPrepend(s[0], s[1..]);
    ValueBound(s[1..]);
  }

  // ----- integers -----

  function StripZeros(s: seq<byte>): (t: seq<byte>)
    ensures |t| <= |s| && (t != [] ==> t[0] != 0)
  {
    if s != [] && s[0] == 0 then StripZeros(s[1..]) else s
  }

  lemma {:induction false} ValueOfStripped(s: seq<byte>)
    ensures Value(StripZeros(s)) == Value(s)
  {
    if s != [] && s[0] == 0 {
      assert s == [0] + s[1..];
      ValueOfPrepend(0, s[1..]);
      ValueOfStripped(s[1..]);
    }
  }

  /** The contents octets of a non-negative INTEGER, X.690 section 8.3. */
  function Contents(val: seq<byte>): (c: seq<byte>)
    ensures 1 <= |c| <= |val| + 1
  {
    var t := StripZeros(val);
    if t == [] || t[0] >= 128 then [0] + t else t
  }

  function EncodeInteger(val: seq<byte>): seq<byte>
    requires |val| <= UINT32_MAX
  {
    [2] + EncodeLength(|Contents(val)|) + Contents(val)
  }

  /** A non-negative INTEGER in its shortest form, and what is behind it. */
  function ParseInteger(s: seq<byte>): Option<(nat, seq<byte>)> {
    if |s| < 2 || s[0] != 2 then None
    else match ParseLength(s[1..])
      case None => None
      case Some((n, used)) =>
        if n == 0 || |s| < 1 + used + n then None
        else
          var c := s[1 + used..1 + used + n];
          if c[0] >= 128 || (n > 1 && c[0] == 0 && c[1] < 128) then None
          else Some((Value(c), s[1 + used + n..]))
  }

  lemma IntegerParses(val: seq<byte>, rest: seq<byte>)
    requires |val| <= UINT32_MAX
    ensures ParseInteger(EncodeInteger(val) + rest) == Some((Value(val), rest))
  {
    ContentsShape(val);
    ContentsValue(val);
    TripleParses(Contents(val), rest);
  }

  /** Non-negative, and no shorter form of the same value. */
  predicate Minimal(c: seq<byte>) {
    |c| >= 1 && c[0] < 128 && !(|c| > 1 && c[0] == 0 && c[1] < 128)
  }

  lemma ContentsShape(val: seq<byte>)
    ensures Minimal(Contents(val))
  {
  }

  lemma TripleParses(c: seq<byte>, rest: seq<byte>)
    requires Minimal(c) && |c| < MAX_LENGTH
    ensures ParseInteger([2] + EncodeLength(|c|) + c + rest) == Some((Value(c), rest))
  {
    hide EncodeLength, ParseLength, Value, ParseInteger;
    var len := EncodeLength(|c|);
    LengthParses(|c|, c + rest);
    BehindLength(len, c, rest);
  }

  lemma BehindLength(len: seq<byte>, c: seq<byte>, rest: seq<byte>)
    requires Minimal(c) && len != [] && ParseLength(len + (c + rest)) == Some((|c|, |len|))
    ensures ParseInteger([2] + len + c + rest) == Some((Value(c), rest))
  {
    hide ParseLength, Value, Minimal;
    var s, used := [2] + len + c + rest, |len|;
    assert s[1..] == len + (c + rest);
    assert s == ([2] + len) + (c + rest);
    assert s[1 + used..1 + used + |c|] == c;
    assert s[1 + used + |c|..] == rest;
    MinimalMeans(c);
  }

  lemma MinimalMeans(c: seq<byte>)
    requires Minimal(c)
    ensures |c| >= 1 && !(c[0] >= 128 || (|c| > 1 && c[0] == 0 && c[1] < 128))
  {
  }

  lemma ContentsValue(val: seq<byte>)
    ensures Value(Contents(val)) == Value(val)
  {
    ValueOfStripped(val);
    ValueOfPrepend(0, StripZeros(val));
  }

  // ----- RSAPublicKey, RFC 8017 section A.1.1 -----

  function EncodePublicKey(n: seq<byte>, e: seq<byte>): seq<byte>
    requires |n| <= UINT32_MAX && |e| <= UINT32_MAX
  {
    var body := EncodeInteger(n) + EncodeInteger(e);
    IntegerSize(n);
    IntegerSize(e);
    [0x30] + EncodeLength(|body|) + body
  }

  lemma IntegerSize(val: seq<byte>)
    requires |val| <= UINT32_MAX
    ensures |EncodeInteger(val)| <= |val| + 8
  {
    LengthDigits(|Contents(val)|);
  }

  function ParsePublicKey(s: seq<byte>): Option<(nat, nat)> {
    if |s| < 2 || s[0] != 0x30 then None
    else match ParseLength(s[1..])
      case None => None
      case Some((len, used)) =>
        if |s| != 1 + used + len then None
        else match ParseInteger(s[1 + used..])
          case None => None
          case Some((n, rest)) =>
            match ParseInteger(rest)
            case None => None
            case Some((e, rest')) => if rest' == [] then Some((n, e)) else None
  }

  /** For byte strings of any word32 length, leading zeros included. */
  lemma PublicKeyParses(n: seq<byte>, e: seq<byte>)
    requires |n| <= UINT32_MAX && |e| <= UINT32_MAX
    ensures ParsePublicKey(EncodePublicKey(n, e)) == Some((Value(n), Value(e)))
  {
    hide EncodeLength, ParseLength, EncodeInteger, ParseInteger;
    var first, second := EncodeInteger(n), EncodeInteger(e);
    var body, s := first + second, EncodePublicKey(n, e);
    IntegerSize(n);
    IntegerSize(e);
    var len := EncodeLength(|body|);
    LengthParses(|body|, body);
    assert s[1..] == len + body;
    assert s[1 + |len|..] == body;
    IntegerParses(n, second);
    IntegerParses(e, []);
    assert second + [] == second;
  }

  // ----- the writers -----

  /** psa_der_len_size */
  method LenSize(len: nat) returns (size: nat)
    requires len < MAX_LENGTH
    ensures size == |EncodeLength(len)|
  {
    size := 1;
    if len < 128 {
      return;
    }
    var left := len;
    while left > 0
      invariant size + Digits(left) == 1 + Digits(len)
    {
      size := size + 1;
      left := left / 256;
    }
  }

  /** `now` is `was` with `s` written over it from `at`. */
  ghost predicate Wrote(was: seq<byte>, now: seq<byte>, at: nat, s: seq<byte>) {
    at + |s| <= |was| && now == was[..at] + s + was[at + |s|..]
  }

  lemma WroteMore(was: seq<byte>, mid: seq<byte>, now: seq<byte>, at: nat, s: seq<byte>, t: seq<byte>)
    requires Wrote(was, mid, at, s) && Wrote(mid, now, at + |s|, t)
    ensures Wrote(was, now, at, s + t)
  {
  }

  method Write(out: array<byte>, at: nat, s: seq<byte>)
    requires at + |s| <= out.Length
    modifies out
    ensures Wrote(old(out[..]), out[..], at, s)
  {
    CopyInto(out, at, s);
  }

  /** psa_der_write_len */
  method WriteLen(out: array<byte>, at: nat, len: nat) returns (written: nat)
    requires len < MAX_LENGTH && at + |EncodeLength(len)| <= out.Length
    modifies out
    ensures written == |EncodeLength(len)| && Wrote(old(out[..]), out[..], at, EncodeLength(len))
  {
    hide BigEndian;
    if len < 128 {
      Write(out, at, [len]);
      return 1;
    }
    LengthDigits(len);
    var count, tmp := 0, len;
    while tmp > 0
      invariant count + Digits(tmp) == Digits(len)
    {
      count := count + 1;
      tmp := tmp / 256;
    }
    ghost var was := out[..];
    Write(out, at, [0x80 + count]);
    ghost var mid := out[..];
    WriteDigits(out, at + 1, len, count);
    WroteMore(was, mid, out[..], at, [0x80 + count], BigEndian(len, count));
    return out[at] - 0x80 + 1;
  }

  method WriteDigits(out: array<byte>, at: nat, len: nat, count: nat)
    requires at + count <= out.Length
    modifies out
    ensures Wrote(old(out[..]), out[..], at, BigEndian(len, count))
  {
    hide BigEndian, ShiftRight;
    ghost var was := out[..];
    var i, left := count, len;
    Unshifted(len);
    while i > 0
      invariant 0 <= i <= count && left == ShiftRight(len, count - i)
      invariant Wrote(was, out[..], at + i, BigEndian(len, count - i))
    {
      BigEndianExtends(len, count - i);
      ShiftRightStep(len, count - i);
      out[at + i - 1] := LowByte(left);
      left := left / 256;
      i := i - 1;
    }
  }

  lemma Unshifted(n: nat)
    ensures ShiftRight(n, 0) == n && BigEndian(n, 0) == []
  {
  }

  method LeadingZeros(val: seq<byte>) returns (offset: nat)
    ensures offset <= |val| && val[offset..] == StripZeros(val)
  {
    offset := 0;
    while offset < |val| && val[offset] == 0
      invariant offset <= |val| && StripZeros(val[offset..]) == StripZeros(val)
    {
      assert val[offset..][1..] == val[offset + 1..];
      offset := offset + 1;
    }
  }

  /** psa_der_int_size */
  method IntSize(val: seq<byte>) returns (size: nat)
    requires |val| <= UINT32_MAX
    ensures size == |EncodeInteger(val)|
  {
    var offset := LeadingZeros(val);
    if offset == |val| {
      return 3;
    }
    var valueLen := |val| - offset;
    var addZero := if val[offset] >= 128 then 1 else 0;
    assert StripZeros(val)[0] == val[offset];
    var lenBytes := LenSize(valueLen + addZero);
    return 1 + lenBytes + valueLen + addZero;
  }

  /** psa_der_write_int */
  method WriteInt(out: array<byte>, at: nat, val: seq<byte>) returns (written: nat)
    requires |val| <= UINT32_MAX && at + |EncodeInteger(val)| <= out.Length
    modifies out
    ensures written == |EncodeInteger(val)| && Wrote(old(out[..]), out[..], at, EncodeInteger(val))
  {
    hide EncodeLength, Wrote, StripZeros;
    var offset := LeadingZeros(val);
    if offset == |val| {
      ShortLength(1);
      assert EncodeInteger(val) == [2, 1, 0];
      Write(out, at, [2, 1, 0]);
      return 3;
    }
    assert StripZeros(val)[0] == val[offset];
    var addZero := if val[offset] >= 128 then 1 else 0;
    written := WriteNonZero(out, at, val[offset..], addZero == 1);
  }

  /** Tag, length and contents of a value without leading zeros. */
  method WriteNonZero(out: array<byte>, at: nat, value: seq<byte>, addZero: bool) returns (written: nat)
    requires |value| <= UINT32_MAX
    requires var c := Padded(value, addZero); at + |[2] + EncodeLength(|c|) + c| <= out.Length
    modifies out
    ensures var c := Padded(value, addZero);
            var s := [2] + EncodeLength(|c|) + c;
            written == |s| && Wrote(old(out[..]), out[..], at, s)
  {
    hide EncodeLength, Wrote;
    ghost var was, c := out[..], Padded(value, addZero);
    out[at] := 2;
    OneByte(was, out[..], at, 2);
    ghost var mid := out[..];
    var length := |value| + if addZero then 1 else 0;
    var lenBytes := WriteLen(out, at + 1, length);
    WroteMore(was, mid, out[..], at, [2], EncodeLength(length));
    mid := out[..];
    WriteContents(out, at + 1 + lenBytes, value, addZero);
    WroteMore(was, mid, out[..], at, [2] + EncodeLength(length), c);
    return 1 + lenBytes + length;
  }

  function Padded(value: seq<byte>, addZero: bool): seq<byte> {
    if addZero then [0] + value else value
  }

  lemma OneByte(was: seq<byte>, now: seq<byte>, at: nat, x: byte)
    requires at < |was| && now == was[at := x]
    ensures Wrote(was, now, at, [x])
  {
  }

  method WriteContents(out: array<byte>, at: nat, value: seq<byte>, addZero: bool)
    requires at + |value| + (if addZero then 1 else 0) <= out.Length
    modifies out
    ensures Wrote(old(out[..]), out[..], at, Padded(value, addZero))
  {
    if addZero {
      out[at] := 0;
      CopyInto(out, at + 1, value);
    } else {
      CopyInto(out, at, value);
    }
  }

  lemma ShortLength(n: nat)
    requires n < 128
    ensures EncodeLength(n) == [n]
  {
  }

  /** The RSA key pair arm of psa_export_public_key behind the decoding of the key. */
  method ExportPublicKey(data: array<byte>, dataSize: nat, n: seq<byte>, e: seq<byte>)
    returns (status: Status, dataLength: nat)
    requires dataSize <= data.Length && |n| <= UINT32_MAX && |e| <= UINT32_MAX
    modifies data
    ensures status == if dataSize < |EncodePublicKey(n, e)| then BufferTooSmall else Success
    ensures status == Success ==>
              dataLength == |EncodePublicKey(n, e)| && Wrote(old(data[..]), data[..], 0, EncodePublicKey(n, e))
    ensures status != Success ==> dataLength == 0 && data[..] == old(data[..])
  {
    hide EncodeLength, EncodeInteger, Wrote;
    IntegerSize(n);
    IntegerSize(e);
    var nSize := IntSize(n);
    var eSize := IntSize(e);
    var seqLen := nSize + eSize;
    var lenSize := LenSize(seqLen);
    var totalLen := 1 + lenSize + seqLen;
    if dataSize < totalLen {
      return BufferTooSmall, 0;
    }
    WriteSequence(data, seqLen, n, e);
    return Success, totalLen;
  }

  method WriteSequence(data: array<byte>, seqLen: nat, n: seq<byte>, e: seq<byte>)
    requires |n| <= UINT32_MAX && |e| <= UINT32_MAX
    requires seqLen == |EncodeInteger(n)| + |EncodeInteger(e)| && |EncodePublicKey(n, e)| <= data.Length
    modifies data
    ensures Wrote(old(data[..]), data[..], 0, EncodePublicKey(n, e))
  {
    hide EncodeLength, EncodeInteger, Wrote;
    IntegerSize(n);
    IntegerSize(e);
    ghost var was, len, first, second := data[..], EncodeLength(seqLen), EncodeInteger(n), EncodeInteger(e);
    Write(data, 0, [0x30]);
    ghost var mid := data[..];
    var at := 1;
    var written := WriteLen(data, at, seqLen);
    WroteMore(was, mid, data[..], 0, [0x30], len);
    at, mid := at + written, data[..];
    written := WriteInt(data, at, n);
    WroteMore(was, mid, data[..], 0, [0x30] + len, first);
    at, mid := at + written, data[..];
    written := WriteInt(data, at, e);
    WroteMore(was, mid, data[..], 0, [0x30] + len + first, second);
    assert EncodePublicKey(n, e) == [0x30] + len + first + second;
  }
}
