/**
 * Moving file data from the server: the size checks on a DATA reply, the
 * digest of a CHECKSUM reply, the block loop of copy_file_data, the range
 * clamp librsync's patch job reads the local file through, the parent
 * directory of a path, the request handed to an external copy program,
 * and the return code of copy_file_data for every file type.
 *
 * Server replies, checksums of local data and the results of filesystem
 * calls are parameters (oracles); writes to the temporary file are taken
 * to succeed.
 */
module Transfer {
  import opened Types
  import opened Scan
  import opened Events

  // ---------------------------------------------------------------------
  // getfrom: the range of the local map a patch job reads

  datatype FromResult = InputEnded | Served(offset: int, len: int)

  /** getfrom: a read at pos of len bytes from a map of maplen bytes. */
  function GetFrom(pos: int, len: nat, maplen: nat): (r: FromResult)
    ensures r.InputEnded? <==> pos >= maplen
    ensures r.Served? ==> r.offset == pos && 0 <= r.len <= len && pos + r.len <= maplen
  {
    if pos >= maplen then InputEnded
    else if pos + len > maplen then Served(pos, maplen - pos)
    else Served(pos, len)
  }

  /** A served read covers as much of the request as the map holds. */
  lemma GetFromLongest(pos: int, len: nat, maplen: nat)
    requires pos < maplen
    ensures GetFrom(pos, len, maplen) == Served(pos, Min(len, maplen - pos))
    ensures GetFrom(pos, len, maplen).len > 0 <==> len > 0
  {
  }

  // ---------------------------------------------------------------------
  // The sizes of a DATA reply

  /** The number of %lld fields a DATA reply is scanned for. */
  const SizeFields: nat := 2

  /** The text sscanf reads a reply from: after the two-character status. */
  function AfterStatus(reply: string): string
  {
    if |reply| >= 2 then reply[2..] else ""
  }

  /** The sizes of one block: on the wire, and after decompression. */
  datatype Sizes = Sizes(wire: int, logical: int, compressed: bool)

  /**
   * The checks getdata and the block loop apply to the sizes a DATA reply
   * announces: a wire size in 0..blockSize, and when a second size is
   * given, a logical size above the wire size (the block is compressed);
   * otherwise the logical size is the wire size.
   */
  function DataSizes(fields: seq<int>, blockSize: int): (r: Option<Sizes>)
    requires |fields| <= SizeFields
  {
    if |fields| < 1 || fields[0] < 0 || fields[0] > blockSize then None
    else if |fields| >= 2 then
      if fields[1] < 0 || fields[1] <= fields[0] then None
      else Some(Sizes(fields[0], fields[1], true))
    else Some(Sizes(fields[0], fields[0], false))
  }

  /** The sizes of a DATA reply, from the at most two integers after its
   *  status. */
  function ReplySizes(reply: string, blockSize: int): Option<Sizes>
  {
    DataSizes(ScanInts(AfterStatus(reply), SizeFields), blockSize)
  }

  /** The sizes are accepted exactly when the wire size is in range and a
   *  second size, if any, is larger; the logical size is never below the
   *  wire size, and above it exactly when the block is compressed. */
  lemma DataSizesAccepted(fields: seq<int>, blockSize: int)
    requires |fields| <= SizeFields
    ensures DataSizes(fields, blockSize).Some? <==>
      |fields| >= 1 && 0 <= fields[0] <= blockSize && (|fields| == 2 ==> fields[1] > fields[0])
    ensures match DataSizes(fields, blockSize)
      case None => true
      case Some(z) =>
        z.wire == fields[0] && 0 <= z.wire <= blockSize && z.wire <= z.logical &&
        (z.compressed <==> |fields| == 2) && (z.compressed <==> z.wire < z.logical) &&
        (z.compressed ==> z.logical == fields[1])
  {
  }

  /** A DATA reply for a compressed block, as the server writes it, reads
   *  back as its two sizes. */
  lemma DataReplyCompressed(status: string, wire: int, logical: int, blockSize: int)
    requires |status| == 2 && 0 <= wire <= blockSize && logical > wire
    ensures ReplySizes(status + FormatInts([wire, logical]), blockSize) == Some(Sizes(wire, logical, true))
  {
    var two := FormatInts([wire, logical]);
    assert AfterStatus(status + two) == two + "";
    ScanFormatInts([wire, logical], "");
  }

  /** A DATA reply for a plain block reads back as its one size. */
  lemma DataReplyPlain(status: string, wire: int, blockSize: int)
    requires |status| == 2 && 0 <= wire <= blockSize
    ensures ReplySizes(status + FormatInts([wire]), blockSize) == Some(Sizes(wire, wire, false))
  {
    var one := FormatInts([wire]);
    assert AfterStatus(status + one) == one;
    ScanIntsShort(one, wire);
  }

  /** One integer followed by nothing: a second conversion finds nothing. */
  lemma ScanIntsShort(one: string, wire: int)
    requires one == FormatInts([wire])
    ensures ScanInts(one, SizeFields) == [wire]
  {
    var e := 1 + |FormatInt(wire)|;
    assert one == " " + FormatInt(wire) + "";
    assert AllSpaces(" ");
    ScanFormatInt(" ", wire, "");
    ScanIntsCons(one, SizeFields, wire, e);
    assert one[e..] == "";
    assert ScanInt("", 0) == NoInt;
  }

  // ---------------------------------------------------------------------
  // The digest of a CHECKSUM reply

  /** n bytes, each as two hexadecimal digits, from index at of s. */
  function ParseDigest(s: string, at: nat, n: nat): (r: Option<seq<Byte>>)
    ensures r.Some? ==> |r.value| == n
    decreases n
  {
    if n == 0 then Some([])
    else if at + 1 < |s| && IsHexDigit(s[at]) && IsHexDigit(s[at + 1]) then
      match ParseDigest(s, at + 2, n - 1)
      case None => None
      case Some(rest) => Some([HexValue(s[at]) * 16 + HexValue(s[at + 1])] + rest)
    else None
  }

  lemma HexPair(b: Byte)
    ensures HexValue(HexChar(b / 16)) * 16 + HexValue(HexChar(b % 16)) == b
  {
  }

  /** A digest written as hexadecimal pairs reads back whole. */
  lemma {:induction false} ParseHexEncode(pre: string, d: seq<Byte>)
    ensures ParseDigest(pre + HexEncode(d), |pre|, |d|) == Some(d)
    decreases |d|
  {
    if d != [] {
      var s := pre + HexEncode(d);
      var pair := [HexChar(d[0] / 16), HexChar(d[0] % 16)];
      assert HexEncode(d) == pair + HexEncode(d[1..]);
      assert s == (pre + pair) + HexEncode(d[1..]);
      assert s[|pre|] == pair[0] && s[|pre| + 1] == pair[1];
      ParseHexEncode(pre + pair, d[1..]);
      HexPair(d[0]);
      assert [d[0]] + d[1..] == d;
    }
  }

  /** The parts of a CHECKSUM reply: the length the server checksummed and
   *  its digest. */
  datatype ChecksumAnswer = ChecksumAnswer(eblock: int, digest: seq<Byte>)

  /**
   * The CHECKSUM reply after its status: a length (%lld), the white space
   * after it (%n), then digestSize bytes as hexadecimal pairs.  A missing
   * or non-positive length, or a bad digit, refuses the reply.
   */
  function ParseChecksumReply(reply: string, digestSize: nat): (r: Option<ChecksumAnswer>)
    ensures r.Some? ==> r.value.eblock >= 1 && |r.value.digest| == digestSize
  {
    var b := AfterStatus(reply);
    match ScanInt(b, 0)
    case NoInt => None
    case IntAt(eblock, e) =>
      if eblock < 1 then None
      else match ParseDigest(b, SkipSpaces(b, e), digestSize)
        case None => None
        case Some(d) => Some(ChecksumAnswer(eblock, d))
  }

  /** A CHECKSUM reply body as the server writes it: the length, a blank,
   *  the digest in hexadecimal. */
  function ChecksumBody(eblock: int, d: seq<Byte>): string
  {
    " " + FormatInt(eblock) + (" " + HexEncode(d))
  }

  lemma StatusPrefix(status: string, b: string)
    requires |status| == 2
    ensures AfterStatus(status + b) == b
  {
    assert (status + b)[2..] == b;
  }

  /** A CHECKSUM reply as the server writes it reads back as its parts. */
  lemma ChecksumReplyRoundTrip(status: string, eblock: int, d: seq<Byte>)
    requires |status| == 2 && eblock >= 1
    ensures ParseChecksumReply(status + ChecksumBody(eblock, d), |d|) == Some(ChecksumAnswer(eblock, d))
  {
    var b := ChecksumBody(eblock, d);
    var e := |FormatInt(eblock)| + 1;
    StatusPrefix(status, b);
    ChecksumBodyLength(eblock, d);
    ChecksumBodyBlank(eblock, d);
    ChecksumBodyDigest(eblock, d);
  }

  /** The body starts with the length. */
  lemma ChecksumBodyLength(eblock: int, d: seq<Byte>)
    ensures ScanInt(ChecksumBody(eblock, d), 0) == IntAt(eblock, |FormatInt(eblock)| + 1)
  {
    assert AllSpaces(" ");
    ScanFormatInt(" ", eblock, " " + HexEncode(d));
  }

  /** After the length comes exactly one blank. */
  lemma ChecksumBodyBlank(eblock: int, d: seq<Byte>)
    ensures SkipSpaces(ChecksumBody(eblock, d), |FormatInt(eblock)| + 1) == |FormatInt(eblock)| + 2
  {
    HexEncodeStart(d);
    SkipOneBlank(" " + FormatInt(eblock), HexEncode(d));
  }

  /** After the blank comes the digest. */
  lemma ChecksumBodyDigest(eblock: int, d: seq<Byte>)
    ensures ParseDigest(ChecksumBody(eblock, d), |FormatInt(eblock)| + 2, |d|) == Some(d)
  {
    var head := " " + FormatInt(eblock);
    assert ChecksumBody(eblock, d) == head + (" " + HexEncode(d));
    assert |head| + 1 == |FormatInt(eblock)| + 2;
    DigestAfterBlank(head, d);
  }

  lemma DigestAfterBlank(head: string, d: seq<Byte>)
    ensures ParseDigest(head + (" " + HexEncode(d)), |head| + 1, |d|) == Some(d)
  {
    ParseHexEncode(head + " ", d);
    BlankAssoc(head, HexEncode(d));
  }

  lemma BlankAssoc(head: string, rest: string)
    ensures head + (" " + rest) == (head + " ") + rest
  {
  }

  // ---------------------------------------------------------------------
  // The block loop of copy_file_data

  /** What a request got back: nothing (and whether a signal interrupted
   *  it), or a reply line. */
  datatype Transaction = Unanswered(interrupted: bool) | Answered(reply: string)

  /** A DATA transaction: the reply, whether the announced bytes then
   *  arrived, and the length they decompress to (None when decompression
   *  fails).  The block is decompressed into a buffer of DATA_BLOCKSIZE
   *  bytes, so only a length up to that size can come out of it: see
   *  Inflated. */
  datatype DataAnswer = DataLost | DataReply(reply: string, payloadOk: bool, inflated: Option<int>)

  /**
   * What the block loop works with: the file size, DATA_BLOCKSIZE, the size
   * of the mapped local file (None when there is none), the digest size of
   * the negotiated checksum (None when there is none), and the server and
   * checksum oracles, keyed by the (offset, length) of the request.
   */
  datatype BlockEnv = BlockEnv(
    fileSize: int,
    blockSize: int,
    local: Option<int>,
    digestSize: Option<nat>,
    checksumReply: (int, int) -> Transaction,
    localDigest: (int, int) -> Option<seq<Byte>>,
    dataReply: (int, int) -> DataAnswer)

  /** The loop's counters: bytes done, and the global tbytes and xbytes. */
  datatype Progress = Progress(done: int, tbytes: int, xbytes: int)

  /** How a round, or the loop, ended. */
  datatype RoundResult = Continue(p: Progress) | Abort(p: Progress)

  /** The length requested at offset done. */
  function Request(env: BlockEnv, done: int): (block: int)
    requires env.blockSize > 0 && done < env.fileSize
    ensures 1 <= block <= env.blockSize && done + block <= env.fileSize
    ensures block == env.blockSize || done + block == env.fileSize
  {
    Min(env.fileSize - done, env.blockSize)
  }

  datatype LocalCheck = NoLocal | LocalAbort | LocalMatch(eblock: int)

  /** Whether the block can be taken from the local file: only with a
   *  local map covering it and a checksum, and only when every digest byte
   *  the server sends equals the local one. */
  function CheckLocal(env: BlockEnv, done: int, block: int): LocalCheck
  {
    if env.local.Some? && done + block <= env.local.value && env.digestSize.Some? then
      match env.checksumReply(done, block)
      case Unanswered(interrupted) => if interrupted then LocalAbort else NoLocal
      case Answered(reply) =>
        match ParseChecksumReply(reply, env.digestSize.value)
        case None => NoLocal
        case Some(a) =>
          match env.localDigest(done, block)
          case None => NoLocal
          case Some(h) => if h == a.digest then LocalMatch(a.eblock) else NoLocal
    else NoLocal
  }

  /** A local copy happens only under the conditions the loop tests. */
  lemma LocalMatchConditions(env: BlockEnv, done: int, block: int)
    ensures CheckLocal(env, done, block).LocalMatch? <==>
      env.local.Some? && done + block <= env.local.value && env.digestSize.Some? &&
      env.checksumReply(done, block).Answered? &&
      ParseChecksumReply(env.checksumReply(done, block).reply, env.digestSize.value).Some? &&
      env.localDigest(done, block) ==
        Some(ParseChecksumReply(env.checksumReply(done, block).reply, env.digestSize.value).value.digest)
    ensures CheckLocal(env, done, block).LocalMatch? ==> CheckLocal(env, done, block).eblock >= 1
  {
  }

  /** The digest parsed so far followed by what the rest parses to. */
  function Glue(xs: seq<Byte>, rest: Option<seq<Byte>>): Option<seq<Byte>>
  {
    match rest
    case None => None
    case Some(r) => Some(xs + r)
  }

  lemma GlueStep(xs: seq<Byte>, s: string, at: nat, k: nat)
    requires k > 0 && at + 1 < |s| && IsHexDigit(s[at]) && IsHexDigit(s[at + 1])
    ensures Glue(xs, ParseDigest(s, at, k)) ==
      Glue(xs + [HexValue(s[at]) * 16 + HexValue(s[at + 1])], ParseDigest(s, at + 2, k - 1))
  {
    var rest := ParseDigest(s, at + 2, k - 1);
    if rest.Some? {
      var byte := HexValue(s[at]) * 16 + HexValue(s[at + 1]);
      assert xs + ([byte] + rest.value) == (xs + [byte]) + rest.value;
    }
  }

  /** The loop that reads the server's digest: n hexadecimal pairs from
   *  index start of b, refused at the first character that is not a
   *  hexadecimal digit. */
  method ReadDigest(b: string, start: nat, n: nat) returns (d: Option<seq<Byte>>)
    ensures d == ParseDigest(b, start, n)
  {
    var rptr := start;
    var rhash: seq<Byte> := [];
    var i := 0;
    assert Glue([], ParseDigest(b, start, n)) == ParseDigest(b, start, n) by {
      if ParseDigest(b, start, n).Some? {
        assert [] + ParseDigest(b, start, n).value == ParseDigest(b, start, n).value;
      }
    }
    while i < n
      invariant 0 <= i <= n && rptr == start + 2 * i && |rhash| == i
      invariant ParseDigest(b, start, n) == Glue(rhash, ParseDigest(b, rptr, n - i))
    {
      if !(rptr < |b| && IsHexDigit(b[rptr])) || !(rptr + 1 < |b| && IsHexDigit(b[rptr + 1])) {
        return None;
      }
      var byte := HexValue(b[rptr]) * 16 + HexValue(b[rptr + 1]);
      GlueStep(rhash, b, rptr, n - i);
      rhash := rhash + [byte];
      rptr := rptr + 2;
      i := i + 1;
    }
    assert ParseDigest(b, rptr, 0) == Some([]);
    assert rhash + [] == rhash;
    return Some(rhash);
  }

  /** The loop that compares the two digests byte by byte. */
  method SameDigest(lhash: seq<Byte>, rhash: seq<Byte>) returns (same: bool)
    requires |lhash| == |rhash|
    ensures same <==> lhash == rhash
  {
    var i := 0;
    while i < |rhash|
      invariant 0 <= i <= |rhash|
      invariant lhash[..i] == rhash[..i]
    {
      if lhash[i] != rhash[i] {
        return false;
      }
      assert lhash[..i + 1] == lhash[..i] + [lhash[i]];
      assert rhash[..i + 1] == rhash[..i] + [rhash[i]];
      i := i + 1;
    }
    assert lhash == lhash[..i] && rhash == rhash[..i];
    return true;
  }

  /** The CHECKSUM exchange: the request, the length in the reply, the
   *  server's digest, then the comparison with the local one. */
  method LocalStep(env: BlockEnv, done: int, block: int) returns (c: LocalCheck)
    requires env.local.Some? && done + block <= env.local.value && env.digestSize.Some?
    ensures c == CheckLocal(env, done, block)
  {
    var n := env.digestSize.value;
    var t := env.checksumReply(done, block);
    if t.Unanswered? {
      return if t.interrupted then LocalAbort else NoLocal;
    }
    var b := AfterStatus(t.reply);
    var scan := ScanInt(b, 0);
    if scan.NoInt? || scan.value < 1 {
      return NoLocal;
    }
    var rhash := ReadDigest(b, SkipSpaces(b, scan.end), n);
    if rhash.None? {
      return NoLocal;
    }
    var lhash := env.localDigest(done, block);
    if lhash.None? || |lhash.value| != n {
      return NoLocal;
    }
    var same := SameDigest(lhash.value, rhash.value);
    return if same then LocalMatch(scan.value) else NoLocal;
  }

  /** Whether decompression into the DATA_BLOCKSIZE buffer gave back
   *  exactly the logical size the reply announced. */
  predicate Inflated(inflated: Option<int>, logical: int, blockSize: int)
  {
    inflated == Some(logical) && logical <= blockSize
  }

  /** The network half of a round: the DATA request at offset p.done. */
  function DataRound(env: BlockEnv, p: Progress, block: int): RoundResult
  {
    match env.dataReply(p.done, block)
    case DataLost => Abort(p)
    case DataReply(reply, payloadOk, inflated) =>
      match ReplySizes(reply, env.blockSize)
      case None => Abort(p)
      case Some(z) =>
        if z.logical == 0 then Abort(p)
        else
          var q := Progress(p.done, p.tbytes + z.logical, p.xbytes + z.wire);
          if !payloadOk then Abort(q)
          else if z.compressed && !Inflated(inflated, z.logical, env.blockSize) then Abort(q)
          else Continue(q.(done := p.done + z.logical))
  }

  /** One round of the loop at offset p.done. */
  function Round(env: BlockEnv, p: Progress): (r: RoundResult)
    requires env.blockSize > 0 && p.done < env.fileSize
  {
    var block := Request(env, p.done);
    match CheckLocal(env, p.done, block)
    case LocalAbort => Abort(p)
    case LocalMatch(eblock) => Continue(Progress(p.done + eblock, p.tbytes + eblock, p.xbytes))
    case NoLocal => DataRound(env, p, block)
  }

  /** A round that goes on moves forward; no round lets xbytes grow faster
   *  than tbytes, and neither counter goes down. */
  lemma RoundProgress(env: BlockEnv, p: Progress)
    requires env.blockSize > 0 && p.done < env.fileSize
    ensures Round(env, p).Continue? ==> Round(env, p).p.done > p.done
    ensures Round(env, p).Abort? ==> Round(env, p).p.done == p.done
    ensures 0 <= Round(env, p).p.xbytes - p.xbytes <= Round(env, p).p.tbytes - p.tbytes
  {
    var block := Request(env, p.done);
    if CheckLocal(env, p.done, block).NoLocal? {
      match env.dataReply(p.done, block)
      case DataLost =>
      case DataReply(reply, payloadOk, inflated) =>
        DataSizesAccepted(ScanInts(AfterStatus(reply), SizeFields), env.blockSize);
        assert ReplySizes(reply, env.blockSize) == DataSizes(ScanInts(AfterStatus(reply), SizeFields), env.blockSize);
    } else if CheckLocal(env, p.done, block).LocalMatch? {
      LocalMatchConditions(env, p.done, block);
    }
  }

  /** The whole loop from p: rounds until done reaches the file size or a
   *  round aborts. */
  function Blocks(env: BlockEnv, p: Progress): RoundResult
    requires env.blockSize > 0
    decreases env.fileSize - p.done
  {
    if p.done >= env.fileSize then Continue(p)
    else
      RoundProgress(env, p);
      match Round(env, p)
      case Abort(q) => Abort(q)
      case Continue(q) => Blocks(env, q)
  }

  /** Over the whole loop done never goes down, xbytes never grows faster
   *  than tbytes, and a loop that finishes has reached the file size. */
  lemma {:induction false} BlocksAccounting(env: BlockEnv, p: Progress)
    requires env.blockSize > 0
    ensures var r := Blocks(env, p);
      r.p.done >= p.done && 0 <= r.p.xbytes - p.xbytes <= r.p.tbytes - p.tbytes &&
      (r.Continue? ==> r.p.done >= env.fileSize)
    decreases env.fileSize - p.done
  {
    if p.done < env.fileSize {
      RoundProgress(env, p);
      match Round(env, p)
      case Abort(q) =>
      case Continue(q) => BlocksAccounting(env, q);
    }
  }

  /** The loop from p is one round, then the loop from where it left off. */
  lemma BlocksUnfold(env: BlockEnv, p: Progress)
    requires env.blockSize > 0 && p.done < env.fileSize
    ensures Round(env, p).Abort? ==> Blocks(env, p) == Round(env, p)
    ensures Round(env, p).Continue? ==> Blocks(env, p) == Blocks(env, Round(env, p).p)
  {
  }

  /**
   * One round of the block loop.  It asks for min(size - done,
   * DATA_BLOCKSIZE) bytes; with a local map covering the block and a
   * checksum, a CHECKSUM exchange whose digest matches the local one lets
   * the bytes the server names be copied locally; otherwise a DATA
   * exchange brings them over the network, after the size checks.
   */
  method BlockRound(env: BlockEnv, p: Progress) returns (r: RoundResult)
    requires env.blockSize > 0 && p.done < env.fileSize
    ensures r == Round(env, p)
  {
    var done, tbytes, xbytes := p.done, p.tbytes, p.xbytes;
    var block := env.fileSize - done;
    if block > env.blockSize {
      block := env.blockSize;
    }
    assert block == Request(env, done);
    var local := NoLocal;
    if env.local.Some? && done + block <= env.local.value && env.digestSize.Some? {
      local := LocalStep(env, done, block);
    }
    if local.LocalAbort? {
      return Abort(p);
    }
    if local.LocalMatch? {
      return Continue(Progress(done + local.eblock, tbytes + local.eblock, xbytes));
    }
    r := DataStep(env, p, block);
  }

  /** The DATA exchange of a round: the sizes must be in range and the
   *  logical size non-zero before the counters grow; a lost payload or a
   *  failed decompression then ends the loop. */
  method DataStep(env: BlockEnv, p: Progress, block: int) returns (r: RoundResult)
    ensures r == DataRound(env, p, block)
  {
    var answer := env.dataReply(p.done, block);
    if answer.DataLost? {
      return Abort(p);
    }
    var sizes := ReplySizes(answer.reply, env.blockSize);
    if sizes.None? || sizes.value.logical == 0 {
      return Abort(p);
    }
    var z := sizes.value;
    var q := Progress(p.done, p.tbytes + z.logical, p.xbytes + z.wire);
    if !answer.payloadOk || (z.compressed && !Inflated(answer.inflated, z.logical, env.blockSize)) {
      return Abort(q);
    }
    return Continue(q.(done := p.done + z.logical));
  }

  /** The block loop of copy_file_data, from the counters in start. */
  method CopyBlocks(env: BlockEnv, start: Progress) returns (r: RoundResult)
    requires env.blockSize > 0
    ensures r == Blocks(env, start)
  {
    var p := start;
    while p.done < env.fileSize
      invariant Blocks(env, start) == Blocks(env, p)
      decreases env.fileSize - p.done
    {
      RoundProgress(env, p);
      BlocksUnfold(env, p);
      var round := BlockRound(env, p);
      if round.Abort? {
        return round;
      }
      p := round.p;
    }
    return Continue(p);
  }

  // ---------------------------------------------------------------------
  // Paths: mkparent, the temporary file, the external copy request

  /** The index of the last '/' of s, if any. */
  function LastSlash(s: string): (r: Option<nat>)
    ensures r.None? <==> forall k :: 0 <= k < |s| ==> s[k] != '/'
    ensures r.Some? ==> r.value < |s| && s[r.value] == '/'
    ensures r.Some? ==> forall k :: r.value < k < |s| ==> s[k] != '/'
  {
    if s == [] then None
    else if s[|s| - 1] == '/' then Some(|s| - 1)
    else LastSlash(s[..|s| - 1])
  }

  /** mkparent: the directory it creates is the part of the name before
   *  its last '/'; a name without '/' needs none. */
  function ParentOf(name: string): Option<string>
  {
    match LastSlash(name)
    case None => None
    case Some(i) => Some(name[..i])
  }

  /** The parent of dir/base, base holding no '/', is dir; a name without
   *  '/' has no parent to create. */
  lemma ParentOfJoin(dir: string, base: string)
    requires forall k :: 0 <= k < |base| ==> base[k] != '/'
    ensures ParentOf(dir + "/" + base) == Some(dir)
    ensures ParentOf(base) == None
  {
    var s := dir + "/" + base;
    assert s[|dir|] == '/';
    assert forall k :: |dir| < k < |s| ==> s[k] == base[k - |dir| - 1];
    assert LastSlash(s) == Some(|dir|);
    assert s[..|dir|] == dir;
  }

  /** The directory copy_file_data makes sure of and puts the temporary
   *  file in: the parent of fname, or fname itself when it has no '/'. */
  function TempDir(fname: string): (dir: string)
    ensures ParentOf(fname).Some? ==> dir == ParentOf(fname).value
    ensures ParentOf(fname).None? ==> dir == fname
  {
    match LastSlash(fname)
    case None => fname
    case Some(i) => fname[..i]
  }

  /** The name mkstemp completes for the temporary file in dir. */
  function TempTemplate(dir: string): (t: string)
    ensures |t| == |dir| + 15 && t[..|dir|] == dir && t[|dir|..] == "/.should.XXXXXX"
  {
    dir + "/.should.XXXXXX"
  }

  /** The request written to the external copy program: the server name
   *  with as many leading characters as the to prefix has taken off, or
   *  nothing when the name is shorter than that. */
  function ExternalRequest(sname: string, toPrefix: string): Option<string>
  {
    if |sname| < |toPrefix| then None else Some(sname[|toPrefix|..])
  }

  /** A name that starts with the to prefix is handed over as the rest of
   *  it; a shorter one is not handed over at all. */
  lemma ExternalRequestStrips(toPrefix: string, rest: string, sname: string)
    ensures ExternalRequest(toPrefix + rest, toPrefix) == Some(rest)
    ensures ExternalRequest(sname, toPrefix).None? <==> |sname| < |toPrefix|
    ensures ExternalRequest(sname, toPrefix).Some? ==>
      |ExternalRequest(sname, toPrefix).value| == |sname| - |toPrefix| &&
      sname == sname[..|toPrefix|] + ExternalRequest(sname, toPrefix).value
  {
    assert (toPrefix + rest)[|toPrefix|..] == rest;
  }

  // ---------------------------------------------------------------------
  // copy_file_data

  /** What copy_file_data does to the local filesystem and asks of the
   *  server, in order. */
  datatype FsAction =
    | MakePath(dir: string)              // mkpath
    | MakeTemp(template: string)         // mkstemp
    | SendOpen(sname: string)            // OPEN
    | SendCloseFile                      // CLOSEFILE
    | UnlinkTemp                         // unlink of the temporary file
    | RemoveNode(path: string)           // unlink
    | RemoveDirTree(path: string)        // rmtree
    | RenameTemp(path: string)           // rename of the temporary file to path
    | MakeDir(path: string)              // mkdir
    | MakeDevice(path: string, block: bool)  // mknod, block or character
    | MakeFifo(path: string)             // mkfifo
    | MakeSymlink(target: string, path: string)  // symlink
    | ExternalCopy(request: string)      // write to the external copy program

  /** The results of the filesystem calls and commands copy_file_data
   *  looks at, and readlink of an existing symbolic link. */
  datatype FileEnv = FileEnv(
    extcopy: bool,      // an external copy program is attached
    pathOk: bool,       // mkpath
    tempOk: bool,       // mkstemp
    openOk: bool,       // the OPEN command
    closeOk: bool,      // close of the temporary file
    renameOk: bool,     // rename into place
    closeFileOk: bool,  // the CLOSEFILE command
    createOk: bool,     // mkdir, mknod, mkfifo or symlink
    link: Option<string>)

  /** The return code (0, 1 or 2), the actions in order, and the counters
   *  of the block loop. */
  datatype Outcome = Outcome(code: int, actions: seq<FsAction>, p: Progress)

  /** The file types copy_file_data creates with a single call. */
  predicate IsNode(t: FileType)
  {
    t.Dir? || t.CharDevice? || t.BlockDevice? || t.Fifo? || t.Symlink?
  }

  /** Whether the node already there may stay: same type, and for a
   *  symbolic link the same target. */
  predicate SameNode(t: FileType, target: string, existing: Option<FileType>, fs: FileEnv)
  {
    existing == Some(t) && (t.Symlink? ==> fs.link == Some(target))
  }

  /** How an existing node of type t is removed: rmtree for a directory,
   *  unlink for anything else. */
  function Removal(fname: string, t: FileType): FsAction
  {
    if t.Dir? then RemoveDirTree(fname) else RemoveNode(fname)
  }

  /** The actions of mkparent, and whether it succeeded. */
  function MakeParent(fname: string): seq<FsAction>
  {
    match ParentOf(fname)
    case None => []
    case Some(dir) => [MakePath(dir)]
  }

  predicate ParentMade(fname: string, fs: FileEnv)
  {
    ParentOf(fname).None? || fs.pathOk
  }

  function Creation(fname: string, t: FileType, target: string): FsAction
    requires IsNode(t)
  {
    match t
    case Dir => MakeDir(fname)
    case CharDevice => MakeDevice(fname, false)
    case BlockDevice => MakeDevice(fname, true)
    case Fifo => MakeFifo(fname)
    case Symlink => MakeSymlink(target, fname)
  }

  /** copy_file_data for a directory, a device, a fifo or a symbolic link:
   *  keep a matching node, else remove what is there, make the parent
   *  and create the node. */
  function NodeData(fname: string, t: FileType, target: string, existing: Option<FileType>,
                    fs: FileEnv, start: Progress): Outcome
    requires IsNode(t)
  {
    if SameNode(t, target, existing, fs) then Outcome(2, [], start)
    else
      var cleared := (if existing.Some? then [Removal(fname, existing.value)] else []) + MakeParent(fname);
      if !ParentMade(fname, fs) then Outcome(1, cleared, start)
      else Outcome(if fs.createOk then 1 else 0, cleared + [Creation(fname, t, target)], start)
  }

  /** copy_file_data for a regular file copied by the block loop: make the
   *  directory, open a temporary file there, OPEN the server file when it
   *  is not empty (fileSize is the event's size), run the block loop, whose
   *  result is loop, close, remove a non-regular node in the way, rename
   *  into place and CLOSEFILE. */
  function RegularData(fname: string, sname: string, existing: Option<FileType>, fs: FileEnv,
                       fileSize: int, loop: RoundResult, start: Progress): Outcome
  {
    var dir := TempDir(fname);
    var made := [MakePath(dir)];
    if !fs.pathOk then Outcome(1, made, start)
    else
      var temp := made + [MakeTemp(TempTemplate(dir))];
      if !fs.tempOk then Outcome(1, temp, start)
      else if fileSize > 0 && !fs.openOk then Outcome(1, temp + [SendOpen(sname)], start)
      else
        var sent := temp + (if fileSize > 0 then [SendOpen(sname)] else []);
        var close := if fileSize > 0 then [SendCloseFile] else [];
        match loop
        case Abort(q) => Outcome(1, sent + [UnlinkTemp] + close, q)
        case Continue(q) =>
          if !fs.closeOk then Outcome(1, sent + [UnlinkTemp] + close, q)
          else
            var cleared := sent + (if existing.Some? && !existing.value.Regular? then [Removal(fname, existing.value)] else []);
            if !fs.renameOk then Outcome(1, cleared + close, q)
            else if fileSize > 0 && !fs.closeFileOk then Outcome(1, cleared + [RenameTemp(fname)] + close, q)
            else Outcome(2, cleared + [RenameTemp(fname)] + close, q)
  }

  /** copy_file_data: fname is the local name, sname the server's, t and
   *  target the type and link target of the event, existing the type of
   *  the node at fname (None when there is none), fileSize the event's
   *  size and loop the result of the block loop from start. */
  function FileData(fname: string, sname: string, t: FileType, target: string, existing: Option<FileType>,
                    toPrefix: string, fs: FileEnv, fileSize: int, loop: RoundResult, start: Progress): Outcome
  {
    if t.Regular? then
      if fs.extcopy then
        match ExternalRequest(sname, toPrefix)
        case None => Outcome(1, [], start)
        case Some(request) => Outcome(1, [ExternalCopy(request)], start)
      else RegularData(fname, sname, existing, fs, fileSize, loop, start)
    else if IsNode(t) then NodeData(fname, t, target, existing, fs, start)
    else Outcome(1, [], start)
  }

  /** The regular-file branch of copy_file_data, with the block loop. */
  method CopyRegular(fname: string, sname: string, existing: Option<FileType>, fs: FileEnv,
                     env: BlockEnv, start: Progress) returns (r: Outcome)
    requires env.blockSize > 0
    ensures r == RegularData(fname, sname, existing, fs, env.fileSize, Blocks(env, start), start)
  {
    var dir := TempDir(fname);
    var actions := [MakePath(dir)];
    if !fs.pathOk {
      return Outcome(1, actions, start);
    }
    actions := actions + [MakeTemp(TempTemplate(dir))];
    if !fs.tempOk {
      return Outcome(1, actions, start);
    }
    var mustClose := false;
    if env.fileSize > 0 {
      actions := actions + [SendOpen(sname)];
      if !fs.openOk {
        return Outcome(1, actions, start);
      }
      mustClose := true;
    } else {
      assert actions + [] == actions;
    }
    var loop := CopyBlocks(env, start);
    var close := if mustClose then [SendCloseFile] else [];
    if loop.Abort? || !fs.closeOk {
      return Outcome(1, actions + [UnlinkTemp] + close, loop.p);
    }
    if existing.Some? && !existing.value.Regular? {
      actions := actions + [Removal(fname, existing.value)];
    } else {
      assert actions + [] == actions;
    }
    if !fs.renameOk {
      return Outcome(1, actions + close, loop.p);
    }
    actions := actions + [RenameTemp(fname)];
    if mustClose && !fs.closeFileOk {
      return Outcome(1, actions + close, loop.p);
    }
    return Outcome(2, actions + close, loop.p);
  }

  /** copy_file_data, dispatching on the type of the event. */
  method CopyFileData(fname: string, sname: string, t: FileType, target: string, existing: Option<FileType>,
                      toPrefix: string, fs: FileEnv, env: BlockEnv, start: Progress) returns (r: Outcome)
    requires env.blockSize > 0
    ensures r == FileData(fname, sname, t, target, existing, toPrefix, fs, env.fileSize, Blocks(env, start), start)
  {
    if t.Regular? {
      if fs.extcopy {
        if |sname| < |toPrefix| {
          return Outcome(1, [], start);
        }
        return Outcome(1, [ExternalCopy(sname[|toPrefix|..])], start);
      }
      r := CopyRegular(fname, sname, existing, fs, env, start);
    } else if IsNode(t) {
      r := NodeData(fname, t, target, existing, fs, start);
    } else {
      r := Outcome(1, [], start);
    }
  }

  /** The conditions under which a regular file is renamed into place. */
  predicate RegularCopied(fs: FileEnv, fileSize: int, loop: RoundResult)
  {
    fs.pathOk && fs.tempOk && (fileSize > 0 ==> fs.openOk && fs.closeFileOk) &&
    loop.Continue? && fs.closeOk && fs.renameOk
  }

  /** The return codes of copy_file_data: always 0, 1 or 2; 0 exactly when
   *  the call creating a new node fails; 2 exactly when a regular file was
   *  renamed into place or a matching node was left as it was. */
  lemma FileDataCodes(fname: string, sname: string, t: FileType, target: string, existing: Option<FileType>,
                      toPrefix: string, fs: FileEnv, fileSize: int, loop: RoundResult, start: Progress)
    ensures var r := FileData(fname, sname, t, target, existing, toPrefix, fs, fileSize, loop, start);
      (r.code == 0 || r.code == 1 || r.code == 2) &&
      (r.code == 0 <==> IsNode(t) && !SameNode(t, target, existing, fs) && ParentMade(fname, fs) && !fs.createOk) &&
      (r.code == 2 <==> (t.Regular? && !fs.extcopy && RegularCopied(fs, fileSize, loop)) ||
                        (IsNode(t) && SameNode(t, target, existing, fs)))
  {
  }

  /** A regular file that reaches the server's OPEN and then fails is
   *  cleaned up, except when OPEN itself fails: then the temporary file
   *  stays behind. */
  lemma RegularTempCleanup(fname: string, sname: string, existing: Option<FileType>, fs: FileEnv,
                           fileSize: int, loop: RoundResult, start: Progress)
    requires fs.pathOk && fs.tempOk
    ensures var r := RegularData(fname, sname, existing, fs, fileSize, loop, start);
      MakeTemp(TempTemplate(TempDir(fname))) in r.actions &&
      (fileSize > 0 && !fs.openOk ==> r.code == 1 && UnlinkTemp !in r.actions && RenameTemp(fname) !in r.actions) &&
      ((fileSize <= 0 || fs.openOk) && (loop.Abort? || !fs.closeOk) ==>
        r.code == 1 && UnlinkTemp in r.actions && RenameTemp(fname) !in r.actions)
  {
  }

  /** A regular file renamed into place keeps the loop's counters, and the
   *  rename is its last filesystem action, after the removal of any
   *  non-regular node in the way. */
  lemma RegularRenamed(fname: string, sname: string, existing: Option<FileType>, fs: FileEnv,
                       fileSize: int, loop: RoundResult, start: Progress)
    requires RegularCopied(fs, fileSize, loop)
    ensures var r := RegularData(fname, sname, existing, fs, fileSize, loop, start);
      r.code == 2 && r.p == loop.p &&
      RenameTemp(fname) in r.actions && UnlinkTemp !in r.actions &&
      (existing.Some? && existing.value.Dir? ==> RemoveDirTree(fname) in r.actions)
  {
    var dir := TempDir(fname);
    var sent := [MakePath(dir)] + [MakeTemp(TempTemplate(dir))] + (if fileSize > 0 then [SendOpen(sname)] else []);
    var removal := if existing.Some? && !existing.value.Regular? then [Removal(fname, existing.value)] else [];
    var close := if fileSize > 0 then [SendCloseFile] else [];
    var r := RegularData(fname, sname, existing, fs, fileSize, loop, start);
    assert r == Outcome(2, sent + removal + [RenameTemp(fname)] + close, loop.p);
    assert UnlinkTemp !in sent && UnlinkTemp !in removal && UnlinkTemp !in close;
  }

  /** A regular file renamed into place after the block loop has been
   *  received whole: the loop went on to the file size. */
  lemma RegularRenamedWhole(fname: string, sname: string, existing: Option<FileType>, fs: FileEnv,
                            env: BlockEnv, start: Progress)
    requires env.blockSize > 0 && RegularCopied(fs, env.fileSize, Blocks(env, start))
    ensures var r := RegularData(fname, sname, existing, fs, env.fileSize, Blocks(env, start), start);
      r.code == 2 && r.p.done >= env.fileSize
  {
    RegularRenamed(fname, sname, existing, fs, env.fileSize, Blocks(env, start), start);
    BlocksAccounting(env, start);
  }

  /** A node that is created comes last, after the removal of what was at
   *  its place and the parent directory; a matching node is left alone. */
  lemma NodeCreatedLast(fname: string, t: FileType, target: string, existing: Option<FileType>,
                        fs: FileEnv, start: Progress)
    requires IsNode(t)
    ensures var r := NodeData(fname, t, target, existing, fs, start);
      (SameNode(t, target, existing, fs) ==> r.actions == []) &&
      (!SameNode(t, target, existing, fs) && ParentMade(fname, fs) ==>
        r.actions[|r.actions| - 1] == Creation(fname, t, target) &&
        (existing.Some? ==> r.actions[0] == Removal(fname, existing.value)))
  {
  }

  /** The CHECKSUM branch trusts the length the server names: a one-byte
   *  file whose block matches may be counted as five bytes copied, and the
   *  loop ends with done beyond the file size. */
  lemma LocalCopyMayOvershoot(env: BlockEnv)
    requires env.fileSize == 1 && env.blockSize == 1 && env.local == Some(1) && env.digestSize == Some(0)
    requires env.checksumReply(0, 1) == Answered("OK" + ChecksumBody(5, []))
    requires env.localDigest(0, 1) == Some([])
    ensures CheckLocal(env, 0, Request(env, 0)) == LocalMatch(5)
    ensures Blocks(env, Progress(0, 0, 0)) == Continue(Progress(5, 5, 0))
  {
    ChecksumReplyRoundTrip("OK", 5, []);
    assert Request(env, 0) == 1;
    assert CheckLocal(env, 0, 1) == LocalMatch(5);
    assert Round(env, Progress(0, 0, 0)) == Continue(Progress(5, 5, 0));
    BlocksUnfold(env, Progress(0, 0, 0));
    assert Blocks(env, Progress(5, 5, 0)) == Continue(Progress(5, 5, 0));
  }
}
