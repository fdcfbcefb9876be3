/** The long-link packets of iOS/im/ksim_longlink_packer.cc: a 20-byte header and a body. */
module LonglinkPacker {
  import opened Seqs
  import opened Bytes
  import opened AutoBuffers
  import opened Options
  import opened Framing

  const HEAD: int := 20
  const MAX_PACKAGE: int := 1024 * 1024

  function Header(headLength: U32, version: U32, cmdid: U32, sequence: U32, bodyLength: U32): (h: seq<Byte>)
    ensures |h| == HEAD
  {
    BigEndian32(headLength) + BigEndian32(version) + BigEndian32(cmdid) + BigEndian32(sequence)
      + BigEndian32(bodyLength)
  }

  function Package(version: U32, cmdid: U32, sequence: U32, body: seq<Byte>): (p: seq<Byte>)
    requires |body| < TWO32
    ensures |p| == HEAD + |body|
  {
    Header(HEAD, version, cmdid, sequence, |body|) + body
  }

  /** longlink_pack: writes header and body at the cursor, then rewinds to the start. */
  method Pack(version: U32, cmdid: U32, sequence: U32, body: seq<Byte>, packed: AutoBuffer)
    requires |body| < TWO32 && packed.Valid()
    modifies packed, packed.parray
    ensures packed.Valid() && packed.pos == 0
    ensures packed.Contents()
      == Spliced(old(packed.Contents()), old(packed.pos), Package(version, cmdid, sequence, body))
  {
    ghost var before, at := packed.Contents(), packed.pos;
    var head := Header(HEAD, version, cmdid, sequence, |body|);
    packed.AllocWrite(HEAD + |body|, true);
    ghost var grown := packed.Contents();
    packed.Write(head);
    ghost var partial := packed.Contents();
    if |body| > 0 {
      packed.Write(body);
    }
    PackSplices(before, grown, partial, packed.Contents(), at, head, body);
    packed.Seek(0, SeekStart);
  }

  lemma PackSplices(before: seq<Byte>, grown: seq<Byte>, c1: seq<Byte>, c2: seq<Byte>, at: nat, head: seq<Byte>,
    body: seq<Byte>)
    requires at <= |before| <= |grown| && grown[..|before|] == before
      && |grown| == Max(at + (|head| + |body|), |before|)
    requires c1 == Spliced(grown, at, head)
    requires c2 == if |body| > 0 then Spliced(c1, at + |head|, body) else c1
    ensures c2 == Spliced(before, at, head + body)
  {
    if |body| == 0 {
      assert head + body == head;
    }
  }

  datatype Unpacked =
    | Continue
    | Refused
    | Ok(cmdid: U32, sequence: U32, packageLen: nat, body: seq<Byte>)

  /** longlink_unpack (through __unpack_test). */
  function Unpack(raw: seq<Byte>): (r: Unpacked) {
    if |raw| < HEAD then Continue
    else
      var headLength := FromBigEndian32(raw[0..4]);
      var bodyLength := FromBigEndian32(raw[16..20]);
      var packageLen: nat := headLength as int + bodyLength as int;
      if packageLen > MAX_PACKAGE then Refused
      else if packageLen > |raw| then Continue
      else Ok(FromBigEndian32(raw[8..12]), FromBigEndian32(raw[12..16]), packageLen, raw[headLength..packageLen])
  }

  /** longlink_unpack writes the body at the cursor of its buffer without moving the cursor. */
  method UnpackInto(raw: seq<Byte>, body: AutoBuffer) returns (r: Unpacked)
    requires body.Valid()
    modifies body, body.parray
    ensures body.Valid() && body.pos == old(body.pos) && r == Unpack(raw)
    ensures body.Contents() == if r.Ok? then Spliced(old(body.Contents()), body.pos, r.body) else old(body.Contents())
  {
    if |raw| < HEAD { return Continue; }
    var headLength := FromBigEndian32(raw[0..4]);
    var cmdid := FromBigEndian32(raw[8..12]);
    var sequence := FromBigEndian32(raw[12..16]);
    var bodyLength := FromBigEndian32(raw[16..20]);
    var packageLen: nat := headLength as int + bodyLength as int;
    if packageLen > MAX_PACKAGE { return Refused; }
    if packageLen > |raw| { return Continue; }
    var data := raw[packageLen - bodyLength..packageLen];
    body.WriteAt(body.pos, data);
    return Ok(cmdid, sequence, packageLen, data);
  }

  /** Which verdict the bytes of a header get. */
  lemma Verdicts(raw: seq<Byte>)
    requires |raw| >= HEAD
    ensures var length := Word(raw[0], raw[1], raw[2], raw[3]) + Word(raw[16], raw[17], raw[18], raw[19]);
            && (Unpack(raw).Refused? <==> length > 0x10_0000)
            && (Unpack(raw).Continue? <==> |raw| < length <= 0x10_0000)
  {
    FromBigEndian32Value(raw[0..4]);
    FromBigEndian32Value(raw[16..20]);
  }

  lemma HeaderFields(version: U32, cmdid: U32, sequence: U32, body: seq<Byte>, raw: seq<Byte>)
    requires |body| < TWO32 && |raw| >= HEAD && raw[..HEAD] == Package(version, cmdid, sequence, body)[..HEAD]
    ensures FromBigEndian32(raw[0..4]) == HEAD && FromBigEndian32(raw[4..8]) == version
    ensures FromBigEndian32(raw[8..12]) == cmdid
    ensures FromBigEndian32(raw[12..16]) == sequence && FromBigEndian32(raw[16..20]) == |body|
  {
    var h := Header(HEAD, version, cmdid, sequence, |body|);
    assert raw[..HEAD] == h;
    assert raw[0..4] == raw[..HEAD][0..4] == BigEndian32(HEAD);
    assert raw[4..8] == raw[..HEAD][4..8] == BigEndian32(version);
    assert raw[8..12] == raw[..HEAD][8..12] == BigEndian32(cmdid);
    assert raw[12..16] == raw[..HEAD][12..16] == BigEndian32(sequence);
    assert raw[16..20] == raw[..HEAD][16..20] == BigEndian32(|body|);
    BigEndian32RoundTrip(HEAD);
    BigEndian32RoundTrip(version);
    BigEndian32RoundTrip(cmdid);
    BigEndian32RoundTrip(sequence);
    BigEndian32RoundTrip(|body|);
  }

  /** A package followed by anything unpacks to exactly what was packed, if and only if it
      is not longer than 1 MiB. */
  lemma UnpackPacked(version: U32, cmdid: U32, sequence: U32, body: seq<Byte>, rest: seq<Byte>)
    requires |body| < TWO32
    ensures Unpack(Package(version, cmdid, sequence, body) + rest)
         == if HEAD + |body| <= MAX_PACKAGE then Ok(cmdid, sequence, HEAD + |body|, body) else Refused
  {
    var raw := Package(version, cmdid, sequence, body) + rest;
    HeaderFields(version, cmdid, sequence, body, raw);
    assert raw[HEAD..HEAD + |body|] == body;
  }

  /** Every proper prefix of a package asks for more bytes. */
  lemma PrefixContinues(version: U32, cmdid: U32, sequence: U32, body: seq<Byte>, k: nat)
    requires HEAD + |body| <= MAX_PACKAGE && k < HEAD + |body|
    ensures Unpack(Package(version, cmdid, sequence, body)[..k]) == Continue
  {
    if k >= HEAD {
      HeaderFields(version, cmdid, sequence, body, Package(version, cmdid, sequence, body)[..k]);
    }
  }

  function NextPackage(raw: seq<Byte>): Option<Frame<Unpacked>> {
    var r := Unpack(raw);
    if r.Ok? then Some(Frame(r, r.packageLen)) else None
  }

  datatype Message = Message(cmdid: U32, sequence: U32, body: seq<Byte>)

  /** Any concatenation of packages followed by an incomplete one deframes to the messages in
      order and leaves exactly the incomplete bytes. */
  lemma DeframePackages(version: U32, ms: seq<Message>, packages: seq<seq<Byte>>, results: seq<Unpacked>,
    last: Message, k: nat)
    requires |packages| == |results| == |ms|
    requires forall i :: 0 <= i < |ms| ==> HEAD + |ms[i].body| <= MAX_PACKAGE
    requires forall i :: 0 <= i < |ms| ==>
      && packages[i] == Package(version, ms[i].cmdid, ms[i].sequence, ms[i].body)
      && results[i] == Ok(ms[i].cmdid, ms[i].sequence, HEAD + |ms[i].body|, ms[i].body)
    requires HEAD + |last.body| <= MAX_PACKAGE && k < HEAD + |last.body|
    ensures var tail := Package(version, last.cmdid, last.sequence, last.body)[..k];
            Deframe(NextPackage, Join(packages) + tail) == (results, tail)
  {
    forall i | 0 <= i < |ms|
      ensures SelfDelimiting(NextPackage, packages[i], results[i])
    {
      forall rest {
        UnpackPacked(version, ms[i].cmdid, ms[i].sequence, ms[i].body, rest);
      }
    }
    PrefixContinues(version, last.cmdid, last.sequence, last.body, k);
    DeframeConcatenation(NextPackage, packages, results, Package(version, last.cmdid, last.sequence, last.body)[..k]);
  }

  /** Every result but a request for more bytes, the refusal included, is final. */
  lemma UnpackStable(x: seq<Byte>, y: seq<Byte>)
    requires !Unpack(x).Continue?
    ensures Unpack(x + y) == Unpack(x) && (Unpack(x).Ok? ==> Unpack(x).packageLen <= |x|)
  {
    SameSlice(x, y, 0, 4);
    SameSlice(x, y, 8, 12);
    SameSlice(x, y, 12, 16);
    SameSlice(x, y, 16, 20);
    if Unpack(x).Ok? {
      SameSlice(x, y, FromBigEndian32(x[0..4]), Unpack(x).packageLen);
    }
  }

  /** Packages are delivered independently of how the stream is cut, for every byte string. */
  lemma PackagesCutIndependent(pieces: seq<seq<Byte>>)
    requires pieces != []
    ensures Receive(NextPackage, [], pieces) == Deframe(NextPackage, Join(pieces))
  {
    forall x, y | NextPackage(x).Some?
      ensures NextPackage(x + y) == NextPackage(x) && NextPackage(x).value.used <= |x|
    {
      UnpackStable(x, y);
    }
    CutIndependent(NextPackage, [], pieces);
    assert [] + Join(pieces) == Join(pieces);
  }

  /** A package, byte by byte. */
  lemma KnownPackage()
    ensures Package(200, 6, 258, [9])
         == [0, 0, 0, 20] + [0, 0, 0, 200] + [0, 0, 0, 6] + [0, 0, 1, 2] + [0, 0, 0, 1] + [9]
  {
    KnownWord(20, 0, 0, 0, 20);
    KnownWord(200, 0, 0, 0, 200);
    KnownWord(6, 0, 0, 0, 6);
    KnownWord(258, 0, 0, 1, 2);
    KnownWord(1, 0, 0, 0, 1);
  }
}
