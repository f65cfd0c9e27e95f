/** AES-CCM as NIST SP 800-38C states it, over whole messages: the formatting
    function of Appendix A, the generation-encryption process of section 6.1 and
    the decryption-verification process of section 6.2. Nothing here is
    incremental; the streaming code is proved against these definitions. */
module CcmSpec {
  import opened Bytes
  import opened Psa

  /** What one formatted block string stands for. */
  datatype Message = Message(nonce: seq<byte>, aad: seq<byte>, payload: seq<byte>, tagLen: nat)

  predicate ValidNonce(nonce: seq<byte>) {
    7 <= |nonce| <= 13
  }

  predicate ValidTagLength(t: nat) {
    4 <= t <= 16 && t % 2 == 0
  }

  /** The number of octets `q` left for the payload length and for the counter. */
  function LengthOctets(nonce: seq<byte>): (q: nat)
    requires ValidNonce(nonce)
    ensures 2 <= q <= 8
  {
    15 - |nonce|
  }

  /** The inputs the streaming code accepts: 32-bit associated data, and a payload
      whose length fits the `q` octets. */
  predicate Formattable(m: Message) {
    && ValidNonce(m.nonce)
    && ValidTagLength(m.tagLen)
    && |m.aad| <= UINT32_MAX
    && |m.payload| < Pow256(LengthOctets(m.nonce))
  }

  // ----- formatting, Appendix A.2 -----

  function Flags(hasAad: bool, tagLen: nat, q: nat): (f: nat)
    requires ValidTagLength(tagLen) && 2 <= q <= 8
    ensures 8 <= f < 128
  {
    (if hasAad then 64 else 0) + 8 * ((tagLen - 2) / 2) + (q - 1)
  }

  lemma FlagsDecode(hasAad: bool, tagLen: nat, q: nat)
    requires ValidTagLength(tagLen) && 2 <= q <= 8
    ensures var f := Flags(hasAad, tagLen, q);
            f % 8 + 1 == q && 2 * (f / 8 % 8) + 2 == tagLen && (f / 64 == 1 <==> hasAad)
  {
    var f, a, t := Flags(hasAad, tagLen, q), if hasAad then 8 else 0, (tagLen - 2) / 2;
    UniqueRemainder(f, 8, a + t, q - 1);
    UniqueRemainder(a + t, 8, if hasAad then 1 else 0, t);
  }

  function B0(nonce: seq<byte>, hasAad: bool, payloadLen: nat, tagLen: nat): Block
    requires ValidNonce(nonce) && ValidTagLength(tagLen)
  {
    var q := LengthOctets(nonce);
    [LowByte(Flags(hasAad, tagLen, q))] + nonce + BigEndian(payloadLen, q)
  }

  function AadPrefix(aadLen: nat): (p: seq<byte>)
    ensures |p| == 2 || |p| == 6
  {
    if aadLen <= 0xFEFF then BigEndian(aadLen, 2) else [0xff, 0xfe] + BigEndian(aadLen, 4)
  }

  function RoundUp16(n: nat): (r: nat)
    ensures n <= r < n + 16 && r % 16 == 0
    ensures n % 16 == 0 ==> r == n
  {
    (n + 15) / 16 * 16
  }

  function PadTo16(s: seq<byte>): (p: seq<byte>)
    ensures |p| == RoundUp16(|s|) && p[..|s|] == s
    ensures forall i :: |s| <= i < |p| ==> p[i] == 0
  {
    s + Zeros(RoundUp16(|s|) - |s|)
  }

  function AadBlocks(aad: seq<byte>): (p: seq<byte>)
    ensures |p| % 16 == 0
  {
    if aad == [] then [] else PadTo16(AadPrefix(|aad|) + aad)
  }

  lemma SumOfBlocks(a: nat, b: nat)
    requires a % 16 == 0 && b % 16 == 0
    ensures (a + b) % 16 == 0 && (16 + a + b) % 16 == 0
  {
  }

  function Format(m: Message): (s: seq<byte>)
    requires ValidNonce(m.nonce) && ValidTagLength(m.tagLen)
    ensures |s| % 16 == 0
  {
    SumOfBlocks(|AadBlocks(m.aad)|, |PadTo16(m.payload)|);
    B0(m.nonce, m.aad != [], |m.payload|, m.tagLen) + AadBlocks(m.aad) + PadTo16(m.payload)
  }

  /** A parser of the formatted blocks that knows nothing but the blocks. */
  function Parse(s: seq<byte>): Option<Message> {
    if |s| < 16 then None else
      var f := s[0];
      var q := f % 8 + 1;
      var nonce := s[1..16 - q];
      var payloadLen := Value(s[16 - q..16]);
      var tagLen := 2 * (f / 8 % 8) + 2;
      if f / 64 == 1 then ParseAad(s[16..], nonce, payloadLen, tagLen)
      else ParsePayload(s[16..], nonce, [], payloadLen, tagLen)
  }

  function ParseAad(s: seq<byte>, nonce: seq<byte>, payloadLen: nat, tagLen: nat): Option<Message> {
    if |s| < 16 then None else
      var long := s[..2] == [0xff, 0xfe];
      var prefix := if long then 6 else 2;
      var aadLen := Value(s[if long then 2 else 0..prefix]);
      if |s| < RoundUp16(prefix + aadLen) then None
      else ParsePayload(s[RoundUp16(prefix + aadLen)..], nonce, s[prefix..prefix + aadLen], payloadLen, tagLen)
  }

  function ParsePayload(s: seq<byte>, nonce: seq<byte>, aad: seq<byte>, payloadLen: nat, tagLen: nat)
    : Option<Message>
  {
    if |s| < payloadLen then None else Some(Message(nonce, aad, s[..payloadLen], tagLen))
  }

  lemma ValueOfTwo(x: byte, y: byte)
    ensures Value([x, y]) == 256 * x + y
  {
    assert [x, y][..1] == [x];
    assert [x][..0] == [];
    assert Value([x]) == x;
  }

  lemma AadPrefixParses(aad: seq<byte>)
    requires 0 < |aad| <= UINT32_MAX
    ensures var s := AadPrefix(|aad|);
            if s[..2] == [0xff, 0xfe] then |s| == 6 && Value(s[2..]) == |aad|
            else |s| == 2 && Value(s) == |aad|
  {
    var a := |aad|;
    assert Pow256(2) == 0x1_0000 && Pow256(4) == 0x1_0000_0000;
    if a <= 0xFEFF {
      ValueOfBigEndian(a, 2);
      var s := BigEndian(a, 2);
      assert s[..2] == s;
      ValueOfTwo(0xff, 0xfe);
    } else {
      ValueOfBigEndian(a, 4);
      assert AadPrefix(a)[..2] == [0xff, 0xfe];
      assert AadPrefix(a)[2..] == BigEndian(a, 4);
    }
  }

  lemma AadParses(m: Message, rest: seq<byte>)
    requires Formattable(m) && m.aad != [] && |rest| >= |m.payload|
    ensures ParseAad(AadBlocks(m.aad) + rest, m.nonce, |m.payload|, m.tagLen)
         == ParsePayload(rest, m.nonce, m.aad, |m.payload|, m.tagLen)
  {
    var prefix := AadPrefix(|m.aad|);
    var blocks := AadBlocks(m.aad);
    var s := blocks + rest;
    AadPrefixParses(m.aad);
    assert (prefix + m.aad)[..|prefix|] == prefix;
    assert blocks[..|prefix| + |m.aad|] == prefix + m.aad;
    assert s[..|prefix|] == prefix;
    assert s[..2] == prefix[..2];
    if |prefix| == 6 {
      assert s[2..6] == prefix[2..];
    }
    assert s[|prefix|..|prefix| + |m.aad|] == m.aad;
    assert s[|blocks|..] == rest;
  }

  lemma FirstBlockParses(m: Message, rest: seq<byte>)
    requires Formattable(m)
    ensures var s := B0(m.nonce, m.aad != [], |m.payload|, m.tagLen) + rest;
            Parse(s) == if m.aad != [] then ParseAad(rest, m.nonce, |m.payload|, m.tagLen)
                        else ParsePayload(rest, m.nonce, [], |m.payload|, m.tagLen)
  {
    hide BigEndian, Value, Flags, ParseAad, ParsePayload;
    var q := LengthOctets(m.nonce);
    var f := Flags(m.aad != [], m.tagLen, q);
    var b := B0(m.nonce, m.aad != [], |m.payload|, m.tagLen);
    var s := b + rest;
    FlagsDecode(m.aad != [], m.tagLen, q);
    ValueOfBigEndian(|m.payload|, q);
    assert s[0] == f;
    assert s[1..16 - q] == m.nonce;
    assert s[16 - q..16] == BigEndian(|m.payload|, q);
    assert s[16..] == rest;
  }

  /** SP 800-38C section 5.4: the formatted data determines nonce, associated data
      and payload, whichever length prefix the associated data takes. */
  lemma FormatParses(m: Message)
    requires Formattable(m)
    ensures Parse(Format(m)) == Some(m)
  {
    FirstBlockParses(m, AadBlocks(m.aad) + PadTo16(m.payload));
    FormatIsFirstBlockAndRest(m);
    RestParses(m);
  }

  lemma FormatIsFirstBlockAndRest(m: Message)
    requires Formattable(m)
    ensures Format(m) == B0(m.nonce, m.aad != [], |m.payload|, m.tagLen) + (AadBlocks(m.aad) + PadTo16(m.payload))
  {
  }

  lemma RestParses(m: Message)
    requires Formattable(m)
    ensures var rest := AadBlocks(m.aad) + PadTo16(m.payload);
            (if m.aad != [] then ParseAad(rest, m.nonce, |m.payload|, m.tagLen)
             else ParsePayload(rest, m.nonce, [], |m.payload|, m.tagLen)) == Some(m)
  {
    var tail := PadTo16(m.payload);
    if m.aad != [] {
      AadParses(m, tail);
    } else {
      assert AadBlocks(m.aad) + tail == tail;
    }
    assert ParsePayload(tail, m.nonce, m.aad, |m.payload|, m.tagLen) == Some(m);
  }

  lemma FormatInjective(m: Message, m': Message)
    requires Formattable(m) && Formattable(m')
    ensures Format(m) == Format(m') ==> m == m'
  {
    hide Formattable, Format, Parse;
    FormatParses(m);
    FormatParses(m');
  }

  // ----- counter blocks, Appendix A.3 -----

  function CounterBlock(nonce: seq<byte>, j: nat): Block
    requires ValidNonce(nonce)
  {
    var q := LengthOctets(nonce);
    [LowByte(q - 1)] + nonce + BigEndian(j, q)
  }

  /** The counter of the last block of a payload that fits the length field fits
      the counter field too. */
  lemma CounterFits(nonce: seq<byte>, payloadLen: nat)
    requires ValidNonce(nonce) && payloadLen < Pow256(LengthOctets(nonce))
    ensures (payloadLen + 15) / 16 < Pow256(LengthOctets(nonce))
  {
    Pow256Monotonic(2, LengthOctets(nonce));
    assert Pow256(1) == 256;
  }

  /** SP 800-38C section 5.4: within one message the counter blocks are distinct
      and none of them is the first formatted block. */
  lemma CounterBlocksDistinct(m: Message, j: nat, k: nat)
    requires Formattable(m)
    requires j <= (|m.payload| + 15) / 16 && k <= (|m.payload| + 15) / 16
    ensures CounterBlock(m.nonce, j) == CounterBlock(m.nonce, k) ==> j == k
    ensures CounterBlock(m.nonce, j) != Format(m)[..16]
  {
    CounterFits(m.nonce, |m.payload|);
    if CounterBlock(m.nonce, j) == CounterBlock(m.nonce, k) {
      CounterBlockInjective(m.nonce, j, k);
    }
    FirstBlockIsNoCounter(m, j);
  }

  lemma CounterBlockInjective(nonce: seq<byte>, j: nat, k: nat)
    requires ValidNonce(nonce)
    requires j < Pow256(LengthOctets(nonce)) && k < Pow256(LengthOctets(nonce))
    requires CounterBlock(nonce, j) == CounterBlock(nonce, k)
    ensures j == k
  {
    var q := LengthOctets(nonce);
    assert CounterBlock(nonce, j)[16 - q..] == BigEndian(j, q);
    assert CounterBlock(nonce, k)[16 - q..] == BigEndian(k, q);
    BigEndianInjective(j, k, q);
  }

  lemma FirstBlockIsNoCounter(m: Message, j: nat)
    requires ValidNonce(m.nonce) && ValidTagLength(m.tagLen)
    ensures CounterBlock(m.nonce, j) != Format(m)[..16]
  {
    var q := LengthOctets(m.nonce);
    assert Format(m)[..16][0] == Flags(m.aad != [], m.tagLen, q) >= 8;
    assert CounterBlock(m.nonce, j)[0] == q - 1;
  }

  // ----- CBC-MAC and CTR -----

  function CbcMac(E: BlockCipher, y: Block, s: seq<byte>): Block
    requires |s| % 16 == 0
    decreases |s|
  {
    if |s| == 0 then y else CbcMac(E, E(Xor(y, s[..16])), s[16..])
  }

  lemma {:induction false} CbcMacAppend(E: BlockCipher, y: Block, a: seq<byte>, b: seq<byte>)
    requires |a| % 16 == 0 && |b| % 16 == 0
    ensures CbcMac(E, y, a + b) == CbcMac(E, CbcMac(E, y, a), b)
    decreases |a|
  {
    if |a| == 0 {
      assert a + b == b;
    } else {
      assert (a + b)[..16] == a[..16];
      assert (a + b)[16..] == a[16..] + b;
      CbcMacAppend(E, E(Xor(y, a[..16])), a[16..], b);
    }
  }

  lemma CbcMacOneBlock(E: BlockCipher, y: Block, b: Block)
    ensures CbcMac(E, y, b) == E(Xor(y, b))
  {
    assert b[..16] == b && b[16..] == [];
    assert CbcMac(E, E(Xor(y, b)), []) == E(Xor(y, b));
  }

  function KeystreamByte(E: BlockCipher, nonce: seq<byte>, i: nat): byte
    requires ValidNonce(nonce)
  {
    E(CounterBlock(nonce, 1 + i / 16))[i % 16]
  }

  /** `data` combined with the keystream from byte `offset` on. */
  function Crypt(E: BlockCipher, nonce: seq<byte>, offset: nat, data: seq<byte>): (r: seq<byte>)
    requires ValidNonce(nonce)
    ensures |r| == |data|
  {
    seq(|data|, i requires 0 <= i < |data| => XorByte(data[i], KeystreamByte(E, nonce, offset + i)))
  }

  lemma CryptAppend(E: BlockCipher, nonce: seq<byte>, offset: nat, a: seq<byte>, b: seq<byte>)
    requires ValidNonce(nonce)
    ensures Crypt(E, nonce, offset, a + b) == Crypt(E, nonce, offset, a) + Crypt(E, nonce, offset + |a|, b)
  {
  }

  lemma CryptInvolutive(E: BlockCipher, nonce: seq<byte>, offset: nat, data: seq<byte>)
    requires ValidNonce(nonce)
    ensures Crypt(E, nonce, offset, Crypt(E, nonce, offset, data)) == data
  {
    forall i | 0 <= i < |data|
      ensures Crypt(E, nonce, offset, Crypt(E, nonce, offset, data))[i] == data[i]
    {
      XorByteCancels(data[i], KeystreamByte(E, nonce, offset + i));
    }
  }

  function Tag(E: BlockCipher, m: Message): (t: seq<byte>)
    requires ValidNonce(m.nonce) && ValidTagLength(m.tagLen)
    ensures |t| == m.tagLen
  {
    Xor(CbcMac(E, Zeros(16), Format(m))[..m.tagLen], E(CounterBlock(m.nonce, 0))[..m.tagLen])
  }

  /** The generation-encryption process of section 6.1. */
  function Encrypt(E: BlockCipher, m: Message): (seq<byte>, seq<byte>)
    requires ValidNonce(m.nonce) && ValidTagLength(m.tagLen)
  {
    (Crypt(E, m.nonce, 0, m.payload), Tag(E, m))
  }

  /** The decryption-verification process of section 6.2. */
  function Decrypt(E: BlockCipher, nonce: seq<byte>, aad: seq<byte>, ciphertext: seq<byte>, tag: seq<byte>)
    : Option<seq<byte>>
    requires ValidNonce(nonce) && ValidTagLength(|tag|)
  {
    var payload := Crypt(E, nonce, 0, ciphertext);
    if Tag(E, Message(nonce, aad, payload, |tag|)) == tag then Some(payload) else None
  }

  lemma DecryptUndoesEncrypt(E: BlockCipher, m: Message)
    requires ValidNonce(m.nonce) && ValidTagLength(m.tagLen)
    ensures var (c, t) := Encrypt(E, m); Decrypt(E, m.nonce, m.aad, c, t) == Some(m.payload)
  {
    CryptInvolutive(E, m.nonce, 0, m.payload);
  }
}
