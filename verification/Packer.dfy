/**
  The framed packets of marsksim/comm/basepacker.cc: a 16-byte header, a url and a data
  region protected by an Adler-32 checksum over both.
 */
module Packer {
  import opened Seqs
  import opened Bytes
  import opened AutoBuffers
  import opened Options
  import opened Framing
  import Adler32

  const HEAD: int := 16
  const MAX_TOTAL: int := 1024 * 1024

  /** url holds the bytes of a C string, without its NUL. */
  datatype Message = Message(url: seq<Byte>, sequence: U32, data: seq<Byte>)

  /** strnlen(url, 128): at most 128 bytes of the url travel. */
  function SentUrl(url: seq<Byte>): (u: seq<Byte>)
    ensures |u| <= 128
  {
    if |url| > 128 then url[..128] else url
  }

  lemma SentUrlIs(url: seq<Byte>)
    ensures |url| <= 128 ==> SentUrl(url) == url
    ensures |url| > 128 ==> |SentUrl(url)| == 128 && SentUrl(url) <= url
  {
  }

  function Total(m: Message): int {
    HEAD + |SentUrl(m.url)| + |m.data|
  }

  /** A message whose length does not leave the unsigned int of the header. */
  ghost predicate Sendable(m: Message) {
    Total(m) < TWO32
  }

  /** The checksum the packer stores: url first, data continued from it, starting at 0. */
  function StoredHash(m: Message): U32 {
    Adler32.Checksum(0, SentUrl(m.url) + m.data)
  }

  function Header(magic: Byte, ver: Byte, headLength: Byte, urlLength: Byte, total: U32, sequence: U32,
    hash: U32): (h: seq<Byte>)
    ensures |h| == HEAD
  {
    [magic, ver, headLength, urlLength] + BigEndian32(total) + BigEndian32(sequence) + BigEndian32(hash)
  }

  function Magic(headLength: Byte, urlLength: Byte, total: U32): Byte {
    (headLength as int + urlLength as int + total) % 256
  }

  /** The bytes of a packet. */
  function Packet(m: Message, doHash: bool): (p: seq<Byte>)
    requires Sendable(m)
    ensures |p| == Total(m)
  {
    var u := SentUrl(m.url);
    var hash := if doHash then StoredHash(m) else 0;
    Header(Magic(HEAD, |u|, Total(m)), 1, HEAD, |u|, Total(m), m.sequence, hash) + u + m.data
  }

  /** Packer_Pack: reserves the room, then writes header, url and data at the cursor. */
  method Pack(m: Message, out: AutoBuffer, doHash: bool)
    requires Sendable(m) && out.Valid()
    modifies out, out.parray
    ensures out.Valid() && (out.parray == old(out.parray) || fresh(out.parray))
    ensures out.Contents() == Spliced(old(out.Contents()), old(out.pos), Packet(m, doHash))
    ensures out.pos == old(out.pos) + Total(m)
  {
    var u := SentUrl(m.url);
    var total := HEAD + |u| + |m.data|;
    var magic := (HEAD + |u| + total) % 256;
    var hash := 0;
    if doHash {
      hash := ComputeHash(u, m.data);
    }
    WriteParts(out, Header(magic, 1, HEAD, |u|, total, m.sequence, hash), u, m.data);
  }

  method WriteParts(out: AutoBuffer, head: seq<Byte>, u: seq<Byte>, data: seq<Byte>)
    requires out.Valid()
    modifies out, out.parray
    ensures out.Valid() && (out.parray == old(out.parray) || fresh(out.parray))
    ensures out.Contents() == Spliced(old(out.Contents()), old(out.pos), head + u + data)
    ensures out.pos == old(out.pos) + |head| + |u| + |data|
  {
    ghost var before, at := out.Contents(), out.pos;
    out.AllocWrite(|head| + |u| + |data|, true);
    ghost var grown := out.Contents();
    WriteThree(out, head, u, data);
    SpliceGrown(before, grown, at, head + u + data);
  }

  method WriteThree(out: AutoBuffer, x: seq<Byte>, y: seq<Byte>, z: seq<Byte>)
    requires out.Valid()
    modifies out, out.parray
    ensures out.Valid() && (out.parray == old(out.parray) || fresh(out.parray))
    ensures out.Contents() == Spliced(old(out.Contents()), old(out.pos), x + y + z)
    ensures out.pos == old(out.pos) + |x| + |y| + |z|
  {
    ghost var before, at := out.Contents(), out.pos;
    WritePair(out, x, y);
    ghost var partial := out.Contents();
    out.Write(z);
    SpliceTwice(before, partial, out.Contents(), at, x + y, z);
  }

  method WritePair(out: AutoBuffer, x: seq<Byte>, y: seq<Byte>)
    requires out.Valid()
    modifies out, out.parray
    ensures out.Valid() && (out.parray == old(out.parray) || fresh(out.parray))
    ensures out.Contents() == Spliced(old(out.Contents()), old(out.pos), x + y)
    ensures out.pos == old(out.pos) + |x| + |y|
  {
    ghost var before, at := out.Contents(), out.pos;
    out.Write(x);
    ghost var partial := out.Contents();
    out.Write(y);
    SpliceTwice(before, partial, out.Contents(), at, x, y);
  }

  /** The url's checksum, continued over the data when there is any. */
  method ComputeHash(u: seq<Byte>, data: seq<Byte>) returns (hash: U32)
    ensures hash == Adler32.Checksum(0, u + data)
  {
    hash := Adler32.Adler32(0, Adler32.To(u), |u|, false);
    Adler32.ChecksumAppend(0, u, data);
    if |data| > 0 {
      hash := Adler32.Adler32(hash, Adler32.To(data), |data|, false);
    } else {
      assert u + data == u;
    }
  }

  lemma SpliceTwice(c0: seq<Byte>, c1: seq<Byte>, c2: seq<Byte>, at: nat, x: seq<Byte>, y: seq<Byte>)
    requires at <= |c0| && c1 == Spliced(c0, at, x) && c2 == Spliced(c1, at + |x|, y)
    ensures c2 == Spliced(c0, at, x + y)
  {
  }

  /** Growing the content first does not matter once the new room is overwritten. */
  lemma SpliceGrown(before: seq<Byte>, grown: seq<Byte>, at: nat, x: seq<Byte>)
    requires at <= |before| <= |grown| && grown[..|before|] == before && |grown| == Max(at + |x|, |before|)
    ensures Spliced(grown, at, x) == Spliced(before, at, x)
  {
  }

  // ---------- unpacking ----------

  datatype Unpacked =
    | Continue
    | ContinueHead
    | ContinueData(url: seq<Byte>, sequence: U32, packLen: nat)
    | BadMagic
    | BadLength
    | TooLong
    | BadHash(url: seq<Byte>, sequence: U32, packLen: nat)
    | Ok(url: seq<Byte>, sequence: U32, packLen: nat, data: seq<Byte>)

  predicate IsContinue(r: Unpacked) {
    r.Continue? || r.ContinueHead? || r.ContinueData?
  }

  predicate IsError(r: Unpacked) {
    r.BadMagic? || r.BadLength? || r.TooLong? || r.BadHash?
  }

  /** Packer_Unpack on the received bytes; the url, sequence and length out-parameters are
      the fields of the result on the paths that assign them. */
  function Unpack(raw: seq<Byte>): (r: Unpacked) {
    if |raw| < HEAD then Continue
    else
      var magic, headLength, urlLength := raw[0], raw[2], raw[3];
      var total := FromBigEndian32(raw[4..8]);
      var sequence := FromBigEndian32(raw[8..12]);
      var hash := FromBigEndian32(raw[12..16]);
      var start: int := headLength as int + urlLength as int;
      if (start + total) % 256 != magic then BadMagic
      else if start > total then BadLength
      else if MAX_TOTAL < total then TooLong
      else if start > |raw| then ContinueHead
      else
        var url := raw[headLength..start];
        if total > |raw| then ContinueData(url, sequence, total)
        else if hash != 0 && hash != Adler32.Checksum(0, raw[headLength..total]) then BadHash(url, sequence, total)
        else Ok(url, sequence, total, raw[start..total])
  }

  /** Packer_Unpack with the data written to an AutoBuffer, and the checksum computed. */
  method UnpackInto(raw: seq<Byte>, data: AutoBuffer) returns (r: Unpacked)
    requires data.Valid()
    modifies data, data.parray
    ensures data.Valid() && r == Unpack(raw)
    ensures data.Contents()
      == if r.Ok? then Spliced(old(data.Contents()), old(data.pos), r.data) else old(data.Contents())
    ensures data.pos == old(data.pos) + if r.Ok? then |r.data| else 0
  {
    if |raw| < HEAD { return Continue; }
    var magic, headLength, urlLength := raw[0], raw[2], raw[3];
    var total := FromBigEndian32(raw[4..8]);
    var sequence := FromBigEndian32(raw[8..12]);
    var hash := FromBigEndian32(raw[12..16]);
    var start: int := headLength as int + urlLength as int;
    if (start + total) % 256 != magic { return BadMagic; }
    if start > total { return BadLength; }
    if MAX_TOTAL < total { return TooLong; }
    if start > |raw| { return ContinueHead; }
    var url := raw[headLength..start];
    if total > |raw| { return ContinueData(url, sequence, total); }
    if hash != 0 {
      var h := Adler32.Adler32(0, Adler32.To(raw[headLength..total]), total - headLength, false);
      if hash != h { return BadHash(url, sequence, total); }
    }
    data.Write(raw[start..total]);
    return Ok(url, sequence, total, raw[start..total]);
  }

  /** Which verdict the bytes of a header get, before the hash is looked at. */
  lemma Verdicts(raw: seq<Byte>)
    requires |raw| >= HEAD
    ensures var start, total := Sum(raw[2], raw[3], 0), Word(raw[4], raw[5], raw[6], raw[7]);
            var r := Unpack(raw);
            && (r.BadMagic? <==> (start + total) % 256 != raw[0])
            && (r.BadLength? <==> !r.BadMagic? && start > total)
            && (r.TooLong? <==> !r.BadMagic? && start <= total && total > 0x10_0000)
            && (r.ContinueHead? <==> !r.BadMagic? && |raw| < start <= total <= 0x10_0000)
            && (r.ContinueData? <==> !r.BadMagic? && start <= |raw| < total <= 0x10_0000)
  {
    TotalWord(raw);
    VerdictsOf(raw, Sum(raw[2], raw[3], 0), FromBigEndian32(raw[4..8]));
  }

  lemma VerdictsOf(raw: seq<Byte>, start: int, total: int)
    requires |raw| >= HEAD && start == Sum(raw[2], raw[3], 0) && total == FromBigEndian32(raw[4..8])
    ensures Unpack(raw).BadMagic? <==> (start + total) % 256 != raw[0]
    ensures Unpack(raw).BadLength? <==> !Unpack(raw).BadMagic? && start > total
    ensures Unpack(raw).TooLong? <==> !Unpack(raw).BadMagic? && start <= total && total > 0x10_0000
    ensures Unpack(raw).ContinueHead? <==> !Unpack(raw).BadMagic? && |raw| < start <= total <= 0x10_0000
    ensures Unpack(raw).ContinueData? <==> !Unpack(raw).BadMagic? && start <= |raw| < total <= 0x10_0000
  {
  }

  lemma TotalWord(raw: seq<Byte>)
    requires |raw| >= HEAD
    ensures FromBigEndian32(raw[4..8]) == Word(raw[4], raw[5], raw[6], raw[7])
  {
    var w := raw[4..8];
    FromBigEndian32Value(w);
    assert w[0] == raw[4] && w[1] == raw[5] && w[2] == raw[6] && w[3] == raw[7];
  }

  function Sum(a: int, b: int, c: int): int {
    a + b + c
  }

  // ---------- framing ----------

  /** The header fields of a packet, read back from any bytes that begin with its header. */
  lemma HeaderFields(h: seq<Byte>, rest: seq<Byte>, magic: Byte, ver: Byte, headLength: Byte, urlLength: Byte,
    total: U32, sequence: U32, hash: U32)
    requires h == Header(magic, ver, headLength, urlLength, total, sequence, hash)
    ensures (h + rest)[0] == magic && (h + rest)[1] == ver
    ensures (h + rest)[2] == headLength && (h + rest)[3] == urlLength
    ensures FromBigEndian32((h + rest)[4..8]) == total
    ensures FromBigEndian32((h + rest)[8..12]) == sequence
    ensures FromBigEndian32((h + rest)[12..16]) == hash
  {
    var raw := h + rest;
    assert raw[4..8] == BigEndian32(total);
    assert raw[8..12] == BigEndian32(sequence);
    assert raw[12..16] == BigEndian32(hash);
    BigEndian32RoundTrip(total);
    BigEndian32RoundTrip(sequence);
    BigEndian32RoundTrip(hash);
  }

  ghost predicate Framed(m: Message, doHash: bool, raw: seq<Byte>)
    requires Sendable(m)
  {
    |raw| >= HEAD && raw[..HEAD] == Packet(m, doHash)[..HEAD]
  }

  lemma FramedFields(m: Message, doHash: bool, raw: seq<Byte>)
    requires Sendable(m) && Framed(m, doHash, raw)
    ensures raw[1] == 1 && raw[2] == HEAD && raw[3] == |SentUrl(m.url)|
    ensures raw[0] == (HEAD + |SentUrl(m.url)| + Total(m)) % 256
    ensures FromBigEndian32(raw[4..8]) == Total(m) && FromBigEndian32(raw[8..12]) == m.sequence
    ensures FromBigEndian32(raw[12..16]) == if doHash then StoredHash(m) else 0
  {
    var u := SentUrl(m.url);
    var hash := if doHash then StoredHash(m) else 0;
    var h := Header(Magic(HEAD, |u|, Total(m)), 1, HEAD, |u|, Total(m), m.sequence, hash);
    assert Packet(m, doHash)[..HEAD] == h;
    HeaderFields(h, raw[HEAD..], h[0], 1, HEAD, |u|, Total(m), m.sequence, if doHash then StoredHash(m) else 0);
    assert raw == h + raw[HEAD..];
  }

  /** What unpacking depends on once a whole packet with this header has arrived. */
  lemma UnpackFramed(m: Message, doHash: bool, raw: seq<Byte>)
    requires Sendable(m) && Framed(m, doHash, raw) && |raw| >= Total(m)
    ensures var start := HEAD + |SentUrl(m.url)|; var hash := if doHash then StoredHash(m) else 0;
            Unpack(raw) == if MAX_TOTAL < Total(m) then TooLong
                           else if hash != 0 && hash != Adler32.Checksum(0, raw[HEAD..Total(m)])
                           then BadHash(raw[HEAD..start], m.sequence, Total(m))
                           else Ok(raw[HEAD..start], m.sequence, Total(m), raw[start..Total(m)])
  {
    FramedFields(m, doHash, raw);
  }

  /** A packet followed by anything unpacks to exactly its message, if and only if it is
      not longer than 1 MiB; longer ones are refused. */
  lemma UnpackPacked(m: Message, doHash: bool, rest: seq<Byte>)
    requires Sendable(m)
    ensures Unpack(Packet(m, doHash) + rest)
         == if Total(m) <= MAX_TOTAL then Ok(SentUrl(m.url), m.sequence, Total(m), m.data) else TooLong
  {
    var raw := Packet(m, doHash) + rest;
    UnpackFramed(m, doHash, raw);
    var u := SentUrl(m.url);
    assert raw[HEAD..HEAD + |u|] == u;
    assert raw[HEAD..Total(m)] == u + m.data;
    assert raw[HEAD + |u|..Total(m)] == m.data;
  }

  /** A url of at most 128 bytes arrives as it was sent, a longer one is cut to 128. */
  lemma UrlArrives(m: Message, doHash: bool, rest: seq<Byte>)
    requires Sendable(m) && Total(m) <= MAX_TOTAL
    ensures |m.url| <= 128 ==>
      Unpack(Packet(m, doHash) + rest) == Ok(m.url, m.sequence, HEAD + |m.url| + |m.data|, m.data)
    ensures |m.url| > 128 ==>
      Unpack(Packet(m, doHash) + rest) == Ok(m.url[..128], m.sequence, HEAD + 128 + |m.data|, m.data)
  {
    UnpackPacked(m, doHash, rest);
    SentUrlIs(m.url);
    assert |m.url| > 128 ==> SentUrl(m.url) == m.url[..128];
  }

  /** Every proper prefix of a packet asks for more bytes. */
  lemma PrefixContinues(m: Message, doHash: bool, k: nat)
    requires Sendable(m) && Total(m) <= MAX_TOTAL && k < Total(m)
    ensures IsContinue(Unpack(Packet(m, doHash)[..k]))
  {
    if k >= HEAD {
      FramedFields(m, doHash, Packet(m, doHash)[..k]);
    }
  }

  function NextPacket(raw: seq<Byte>): Option<Frame<Unpacked>> {
    var r := Unpack(raw);
    if r.Ok? then Some(Frame(r, r.packLen)) else None
  }

  function Delivered(m: Message): Unpacked {
    Ok(SentUrl(m.url), m.sequence, Total(m), m.data)
  }

  lemma PacketSelfDelimiting(m: Message, doHash: bool)
    requires Sendable(m) && Total(m) <= MAX_TOTAL
    ensures SelfDelimiting(NextPacket, Packet(m, doHash), Delivered(m))
  {
    forall rest {
      UnpackPacked(m, doHash, rest);
    }
  }

  /** Any concatenation of packets followed by an incomplete one deframes to the messages
      in order and leaves exactly the incomplete bytes. */
  lemma DeframePackets(ms: seq<Message>, hashed: seq<bool>, packets: seq<seq<Byte>>, results: seq<Unpacked>,
    last: Message, doHash: bool, k: nat)
    requires |packets| == |results| == |hashed| == |ms|
    requires forall i :: 0 <= i < |ms| ==> Sendable(ms[i]) && Total(ms[i]) <= MAX_TOTAL
    requires forall i :: 0 <= i < |ms| ==> packets[i] == Packet(ms[i], hashed[i]) && results[i] == Delivered(ms[i])
    requires Sendable(last) && Total(last) <= MAX_TOTAL && k < Total(last)
    ensures Deframe(NextPacket, Join(packets) + Packet(last, doHash)[..k]) == (results, Packet(last, doHash)[..k])
  {
    forall i | 0 <= i < |ms|
      ensures SelfDelimiting(NextPacket, packets[i], results[i])
    {
      PacketSelfDelimiting(ms[i], hashed[i]);
    }
    PrefixContinues(last, doHash, k);
    DeframeConcatenation(NextPacket, packets, results, Packet(last, doHash)[..k]);
  }

  /** The same for urls of at most 128 bytes, which arrive as they were sent. */
  lemma DeframeMessages(ms: seq<Message>, hashed: seq<bool>, packets: seq<seq<Byte>>, results: seq<Unpacked>)
    requires |packets| == |results| == |hashed| == |ms|
    requires forall i :: 0 <= i < |ms| ==> |ms[i].url| <= 128 && HEAD + |ms[i].url| + |ms[i].data| <= MAX_TOTAL
    requires forall i :: 0 <= i < |ms| ==> packets[i] == Packet(ms[i], hashed[i])
    requires forall i :: 0 <= i < |ms| ==>
      results[i] == Ok(ms[i].url, ms[i].sequence, HEAD + |ms[i].url| + |ms[i].data|, ms[i].data)
    ensures Deframe(NextPacket, Join(packets)) == (results, [])
  {
    var last := Message([], 0, []);
    assert Packet(last, false)[..0] == [] && Join(packets) + [] == Join(packets);
    AllDelivered(ms, results);
    DeframePackets(ms, hashed, packets, results, last, false, 0);
  }

  lemma AllDelivered(ms: seq<Message>, results: seq<Unpacked>)
    requires |results| == |ms|
    requires forall i :: 0 <= i < |ms| ==> |ms[i].url| <= 128 && HEAD + |ms[i].url| + |ms[i].data| <= MAX_TOTAL
    requires forall i :: 0 <= i < |ms| ==>
      results[i] == Ok(ms[i].url, ms[i].sequence, HEAD + |ms[i].url| + |ms[i].data|, ms[i].data)
    ensures forall i :: 0 <= i < |ms| ==> Sendable(ms[i]) && Total(ms[i]) <= MAX_TOTAL && results[i] == Delivered(ms[i])
  {
    forall i | 0 <= i < |ms|
      ensures Sendable(ms[i]) && Total(ms[i]) <= MAX_TOTAL && results[i] == Delivered(ms[i])
    {
      SentUrlIs(ms[i].url);
    }
  }

  /** Every result but a request for more bytes, the errors included, is final. */
  lemma UnpackStable(x: seq<Byte>, y: seq<Byte>)
    requires !IsContinue(Unpack(x))
    ensures Unpack(x + y) == Unpack(x) && (Unpack(x).Ok? ==> Unpack(x).packLen <= |x|)
  {
    var h, u, total := x[2], x[3], FromBigEndian32(x[4..8]);
    SameSlice(x, y, 4, 8);
    SameSlice(x, y, 8, 12);
    SameSlice(x, y, 12, 16);
    if Unpack(x).Ok? || Unpack(x).BadHash? {
      SameSlice(x, y, h, h as int + u as int);
      SameSlice(x, y, h, total);
      SameSlice(x, y, h as int + u as int, total);
    }
  }

  /** Packets are delivered independently of how the stream is cut, for every byte string. */
  lemma PacketsCutIndependent(pieces: seq<seq<Byte>>)
    requires pieces != []
    ensures Receive(NextPacket, [], pieces) == Deframe(NextPacket, Join(pieces))
  {
    forall x, y | NextPacket(x).Some?
      ensures NextPacket(x + y) == NextPacket(x) && NextPacket(x).value.used <= |x|
    {
      UnpackStable(x, y);
    }
    CutIndependent(NextPacket, [], pieces);
    assert [] + Join(pieces) == Join(pieces);
  }

  // ---------- corruption ----------

  /** The magic byte is the low byte of the sum of the three lengths. */
  lemma MagicTest(raw: seq<Byte>)
    requires |raw| >= HEAD
    ensures Unpack(raw).BadMagic? <==> Sum(raw[2], raw[3], raw[7]) % 256 != raw[0]
  {
    TotalWord(raw);
    LowByte(Sum(raw[2], raw[3], 0), raw[4], raw[5], raw[6], raw[7]);
  }

  lemma LowByte(n: int, a: int, b: int, c: int, d: int)
    ensures (n + Word(a, b, c, d)) % 256 == (n + d) % 256
  {
    assert n + Word(a, b, c, d) == n + d + 256 * (0x1_0000 * a + 0x100 * b + c);
  }

  lemma OtherByte(n: int, old_: int, new_: int)
    requires 0 <= old_ < 256 && 0 <= new_ < 256 && old_ != new_
    ensures (n + old_) % 256 != (n + new_) % 256
  {
    var p, q := (n + old_) / 256, (n + new_) / 256;
    assert n + old_ == 256 * p + (n + old_) % 256 && n + new_ == 256 * q + (n + new_) % 256;
  }

  /** Of the header, changing one byte is noticed by the magic exactly for the magic itself, the two
      short lengths and the low byte of the total. */
  lemma HeaderByteDetected(m: Message, doHash: bool, i: nat, x: Byte)
    requires Sendable(m) && i < HEAD && x != Packet(m, doHash)[i]
    ensures Unpack(Packet(m, doHash)[i := x]).BadMagic? <==> i == 0 || i == 2 || i == 3 || i == 7
  {
    var p := Packet(m, doHash);
    assert p + [] == p;
    UnpackPacked(m, doHash, []);
    MagicTest(p);
    ChangedHeader(p, i, x);
  }

  lemma ChangedHeader(p: seq<Byte>, i: nat, x: Byte)
    requires |p| >= HEAD && i < HEAD && x != p[i] && Sum(p[2], p[3], p[7]) % 256 == p[0]
    ensures Unpack(p[i := x]).BadMagic? <==> i == 0 || i == 2 || i == 3 || i == 7
  {
    MagicTest(p[i := x]);
    if i == 2 {
      OtherByte(Sum(0, p[3], p[7]), p[2], x);
    } else if i == 3 {
      OtherByte(Sum(p[2], 0, p[7]), p[3], x);
    } else if i == 7 {
      OtherByte(Sum(p[2], p[3], 0), p[7], x);
    }
  }

  /** A packet, byte by byte. */
  lemma KnownPacket()
    ensures Packet(Message([47, 97], 7, [9]), true)
         == [37, 1, 16, 2] + [0, 0, 0, 19] + [0, 0, 0, 7] + [1, 88, 0, 153] + [47, 97, 9]
  {
    var m := Message([47, 97], 7, [9]);
    assert SentUrl(m.url) == [47, 97];
    assert [47, 97] + [9] == [47, 97, 9];
    Adler32.KnownChecksum();
    KnownHeader();
    Assoc([37, 1, 16, 2] + [0, 0, 0, 19] + [0, 0, 0, 7] + [1, 88, 0, 153], [47, 97], [9]);
  }

  lemma KnownHeader()
    ensures Header(37, 1, 16, 2, 19, 7, 0x158_0099)
         == [37, 1, 16, 2] + [0, 0, 0, 19] + [0, 0, 0, 7] + [1, 88, 0, 153]
  {
    KnownWord(19, 0, 0, 0, 19);
    KnownWord(7, 0, 0, 0, 7);
    KnownWord(0x158_0099, 1, 88, 0, 153);
  }

  /** Changing one byte of the url or data region of a hashed packet is reported as an error
      if and only if the stored hash is not zero: a zero hash switches the check off. */
  lemma CorruptionDetected(m: Message, i: nat, x: Byte)
    requires Sendable(m) && Total(m) <= MAX_TOTAL
    requires HEAD <= i < Total(m) && x != Packet(m, true)[i]
    ensures IsError(Unpack(Packet(m, true)[i := x])) <==> StoredHash(m) != 0
    ensures Unpack(Packet(m, true)[i := x]).Ok? <==> StoredHash(m) == 0
  {
    var p := Packet(m, true);
    var raw := p[i := x];
    UnpackFramed(m, true, raw);
    ChangedBody(m, i, x);
    Adler32.OneByteDetected(0, SentUrl(m.url) + m.data, i - HEAD, x);
  }

  lemma ChangedBody(m: Message, i: nat, x: Byte)
    requires Sendable(m) && HEAD <= i < Total(m)
    ensures var body := SentUrl(m.url) + m.data;
            Packet(m, true)[i] == body[i - HEAD] && Packet(m, true)[i := x][HEAD..Total(m)] == body[i - HEAD := x]
  {
    assert Packet(m, true)[HEAD..] == SentUrl(m.url) + m.data;
  }

  /** Such packets exist: with no url and zero data the stored hash is zero. */
  lemma ZeroHashExists()
    ensures StoredHash(Message([], 7, [0, 0])) == 0
    ensures Unpack(Packet(Message([], 7, [0, 0]), true)[HEAD := 5]).Ok?
  {
    var m := Message([], 7, [0, 0]);
    var body: seq<Byte> := SentUrl(m.url) + m.data;
    assert body == [0, 0];
    var z := Adler32.Sums(0, 0);
    assert body[1..] == [0] && body[1..][1..] == [];
    assert Adler32.Unpacked(0) == z;
    assert Adler32.Step(z, 0) == z;
    assert Adler32.Fold(z, body) == Adler32.Fold(z, body[1..]) == Adler32.Fold(z, body[1..][1..]) == z;
    CorruptionDetected(m, HEAD, 5);
  }
}
