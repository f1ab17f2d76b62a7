/** The fork-tip bookkeeping types of the chain pipeline: the lineage that
    names a fork, the tip that is the head of one fork, their binary
    encodings, and the error type of the chain store.
 */
module Types {
  import opened Ser

  /** Size in bytes of a block hash. The hash module is not part of this
      model: a hash is an opaque sequence of that many bytes. */
  const HASH_SIZE: nat := 32

  type Hash = h: seq<byte> | |h| == HASH_SIZE witness seq(32, i => 0)

  /** The errors of the chain store interface. */
  datatype ChainError = NotFoundErr | StorageErr(msg: string)

  // ---------------------------------------------------------------------
  // Lineage
  // ---------------------------------------------------------------------

  /** The branch numbers of a fork, from the genesis fork to this one: a new
      fork gets its parent's lineage with one new branch number added. */
  datatype Lineage = Lineage(branches: seq<uint32>)

  /** The lineage of the genesis fork. */
  function NewLineage(): (l: Lineage)
    ensures |l.branches| == 1 && LastBranch(l) == 0
  {
    Lineage([0])
  }

  /** The branch added last, the only one unique to this lineage; undefined
      (a panic) on an empty lineage. */
  function LastBranch(l: Lineage): (b: uint32)
    requires l.branches != []
    ensures l.branches == l.branches[..|l.branches| - 1] + [b]
  {
    l.branches[|l.branches| - 1]
  }

  /** A fork created from `parent` with new branch number `b` has `b` as its
      last branch, whatever the parent's lineage. */
  lemma {:induction false} LastBranchOfFork(parent: Lineage, b: uint32)
    ensures LastBranch(Lineage(parent.branches + [b])) == b
  {
  }

  /** The bytes written for the branch numbers, each as a u32 in order. */
  function EncodeBranches(bs: seq<uint32>): (r: seq<byte>)
    ensures |r| == 4 * |bs|
  {
    if bs == [] then [] else EncodeBranches(bs[..|bs| - 1]) + EncodeU32(bs[|bs| - 1])
  }

  /** The bytes written for a lineage: its length cast to u32, then every
      branch number. */
  function EncodeLineage(l: Lineage): (r: seq<byte>)
    ensures |r| == 4 + 4 * |l.branches|
  {
    EncodeU32(AsU32(|l.branches|)) + EncodeBranches(l.branches)
  }

  /** Reading `count` branch numbers from `pos`, one u32 at a time. */
  function DecodeBranches(data: seq<byte>, pos: nat, count: nat): (r: Result<(seq<uint32>, nat), Error>)
    ensures r.Ok? ==> |r.value.0| == count && r.value.1 == pos + 4 * count
    decreases count
  {
    if count == 0 then Ok(([], pos))
    else
      match DecodeBranches(data, pos, count - 1)
      case Err(e) => Err(e)
      case Ok((bs, p)) =>
        match DecodeU32(data, p)
        case Err(e) => Err(e)
        case Ok((b, q)) => Ok((bs + [b], q))
  }

  /** Reading a lineage from `pos`: a u32 count, then that many branches. */
  function DecodeLineage(data: seq<byte>, pos: nat): Result<(Lineage, nat), Error>
  {
    match DecodeU32(data, pos)
    case Err(e) => Err(e)
    case Ok((n, p)) =>
      match DecodeBranches(data, p, n)
      case Err(e) => Err(e)
      case Ok((bs, q)) => Ok((Lineage(bs), q))
  }

  lemma {:induction false} EncodeBranchesAppend(a: seq<uint32>, b: seq<uint32>)
    ensures EncodeBranches(a + b) == EncodeBranches(a) + EncodeBranches(b)
    decreases |b|
  {
    if b == [] {
      assert a + b == a;
    } else {
      var b' := b[..|b| - 1];
      assert (a + b)[..|a + b| - 1] == a + b';
      EncodeBranchesAppend(a, b');
    }
  }

  /** The encoding of a lineage is its count followed by each branch number,
      in order, at offset 4 + 4 * i. */
  lemma {:induction false} EncodeLineageLayout(l: Lineage, i: nat)
    requires i < |l.branches|
    ensures EncodeLineage(l)[..4] == EncodeU32(AsU32(|l.branches|))
    ensures EncodeLineage(l)[4 + 4 * i..8 + 4 * i] == EncodeU32(l.branches[i])
  {
    var bs := l.branches;
    var count, body := EncodeU32(AsU32(|bs|)), EncodeBranches(bs);
    var m: nat := 4 * i;
    assert body[m..m + 4] == EncodeU32(bs[i]) by {
      EncodeBranchesPrefix(bs, i + 1);
      EncodeBranchesSnoc(bs, i);
      SubSlice(body, 0, EncodeBranches(bs[..i + 1]), m + 4, m, m + 4);
    }
    SliceOfSuffix(count, body, m, m + 4);
  }

  /** The encoding of one more branch number extends the encoding by that
      number's four bytes. */
  lemma {:induction false} EncodeBranchesSnoc(bs: seq<uint32>, i: nat)
    requires i < |bs|
    ensures EncodeBranches(bs[..i + 1]) == EncodeBranches(bs[..i]) + EncodeU32(bs[i])
  {
    assert bs[..i + 1][..i] == bs[..i];
  }

  /** Reading `count` branches succeeds exactly when `4 * count` bytes are
      left, and then consumes exactly those bytes. */
  lemma {:induction false} DecodeBranchesSucceeds(data: seq<byte>, pos: nat, count: nat)
    requires pos <= |data|
    ensures DecodeBranches(data, pos, count).Ok? <==> pos + 4 * count <= |data|
  {
    if count > 0 {
      DecodeBranchesSucceeds(data, pos, count - 1);
    }
  }

  /** Reading back branch numbers from bytes that hold their encoding. */
  lemma {:induction false} DecodeBranchesAt(data: seq<byte>, pos: nat, bs: seq<uint32>)
    requires pos + 4 * |bs| <= |data|
    requires data[pos..pos + 4 * |bs|] == EncodeBranches(bs)
    ensures DecodeBranches(data, pos, |bs|) == Ok((bs, pos + 4 * |bs|))
  {
    if bs != [] {
      SplitLastBranch(data, pos, bs);
      DecodeBranchesAt(data, pos, bs[..|bs| - 1]);
      DecodeU32At(data, pos + 4 * (|bs| - 1), bs[|bs| - 1]);
      DecodeBranchesSnoc(data, pos, bs);
    }
  }

  /** Reading all but the last branch of `bs`, then the last one, reads `bs`. */
  lemma {:induction false} DecodeBranchesSnoc(data: seq<byte>, pos: nat, bs: seq<uint32>)
    requires bs != []
    requires DecodeBranches(data, pos, |bs[..|bs| - 1]|) == Ok((bs[..|bs| - 1], pos + 4 * |bs[..|bs| - 1]|))
    requires DecodeU32(data, pos + 4 * (|bs| - 1)) == Ok((bs[|bs| - 1], pos + 4 * (|bs| - 1) + 4))
    ensures DecodeBranches(data, pos, |bs|) == Ok((bs, pos + 4 * |bs|))
  {
    assert bs[..|bs| - 1] + [bs[|bs| - 1]] == bs;
  }

  /** Bytes holding the encoding of non-empty `bs` hold that of all but its
      last branch, followed by that of the last one. */
  lemma {:induction false} SplitLastBranch(data: seq<byte>, pos: nat, bs: seq<uint32>)
    requires bs != []
    requires pos + 4 * |bs| <= |data|
    requires data[pos..pos + 4 * |bs|] == EncodeBranches(bs)
    ensures data[pos..pos + 4 * (|bs| - 1)] == EncodeBranches(bs[..|bs| - 1])
    ensures data[pos + 4 * (|bs| - 1)..pos + 4 * |bs|] == EncodeU32(bs[|bs| - 1])
  {
    var m: nat := 4 * (|bs| - 1);
    assert 4 * |bs| == m + 4;
    var field := EncodeBranches(bs);
    assert field == EncodeBranches(bs[..|bs| - 1]) + EncodeU32(bs[|bs| - 1]);
    SubSlice(data, pos, field, m + 4, 0, m);
    SubSlice(data, pos, field, m + 4, m, m + 4);
  }

  /** The encoding of the first `c` branch numbers is the start of the
      encoding of all of them. */
  lemma {:induction false} EncodeBranchesPrefix(bs: seq<uint32>, c: nat)
    requires c <= |bs|
    ensures EncodeBranches(bs)[..4 * c] == EncodeBranches(bs[..c])
  {
    var a, b := bs[..c], bs[c..];
    assert a + b == bs;
    EncodeBranchesAppend(a, b);
    Framed([], EncodeBranches(a), EncodeBranches(b));
    assert [] + EncodeBranches(a) + EncodeBranches(b) == EncodeBranches(bs);
  }

  /** Decoding bytes that hold the encoding of any lineage yields its first
      `len as u32` branches, consuming the count and those branches. */
  lemma {:induction false} DecodeEncodedLineageAt(data: seq<byte>, pos: nat, l: Lineage)
    requires pos + |EncodeLineage(l)| <= |data|
    requires data[pos..pos + |EncodeLineage(l)|] == EncodeLineage(l)
    ensures var c := AsU32(|l.branches|);
      DecodeLineage(data, pos) == Ok((Lineage(l.branches[..c]), pos + 4 + 4 * c))
  {
    var c := AsU32(|l.branches|);
    LineagePartsAt(data, pos, l);
    DecodeU32At(data, pos, c);
    DecodeBranchesAt(data, pos + 4, l.branches[..c]);
  }

  /** Bytes holding the encoding of a lineage hold its count, then the
      encoding of as many branches as that count says. */
  lemma {:induction false} LineagePartsAt(data: seq<byte>, pos: nat, l: Lineage)
    requires pos + |EncodeLineage(l)| <= |data|
    requires data[pos..pos + |EncodeLineage(l)|] == EncodeLineage(l)
    ensures data[pos..pos + 4] == EncodeU32(AsU32(|l.branches|))
    ensures var c := AsU32(|l.branches|);
      data[pos + 4..pos + 4 + 4 * |l.branches[..c]|] == EncodeBranches(l.branches[..c])
  {
    var bs := l.branches;
    var c: nat := AsU32(|bs|);
    var enc := EncodeLineage(l);
    var count, body := EncodeU32(c), EncodeBranches(bs);
    var m: nat := 4 * c;
    assert enc[..|enc|] == enc;
    SubSlice(data, pos, enc, |enc|, 0, 4);
    SubSlice(data, pos, enc, |enc|, 4, 4 + m);
    SliceOfSuffix(count, body, 0, m);
    EncodeBranchesPrefix(bs, c);
  }

  /** The same, for a lineage written between any `pre` and `post`. */
  lemma {:induction false} DecodeEncodedLineage(l: Lineage, pre: seq<byte>, post: seq<byte>)
    ensures var c := AsU32(|l.branches|);
      DecodeLineage(pre + EncodeLineage(l) + post, |pre|)
        == Ok((Lineage(l.branches[..c]), |pre| + 4 + 4 * c))
  {
    Framed(pre, EncodeLineage(l), post);
    DecodeEncodedLineageAt(pre + EncodeLineage(l) + post, |pre|, l);
  }

  /** Round trip: a lineage of fewer than 2^32 branches decodes to itself,
      and the decoder reads exactly its 4 + 4 * n bytes, leaving what
      follows untouched. */
  lemma {:induction false} LineageRoundTrip(l: Lineage, pre: seq<byte>, post: seq<byte>)
    requires |l.branches| < U32_BOUND
    ensures DecodeLineage(pre + EncodeLineage(l) + post, |pre|)
      == Ok((l, |pre| + |EncodeLineage(l)|))
  {
    DecodeEncodedLineage(l, pre, post);
    assert l.branches[..|l.branches|] == l.branches;
  }

  /** A lineage of 2^32 or more branches does not survive the round trip:
      the `as u32` cast of its length loses the high bits. */
  lemma {:induction false} OversizedLineageTruncated(l: Lineage)
    requires |l.branches| >= U32_BOUND
    ensures DecodeLineage(EncodeLineage(l), 0).Ok?
    ensures DecodeLineage(EncodeLineage(l), 0).value.0 != l
  {
    DecodeEncodedLineage(l, [], []);
    assert [] + EncodeLineage(l) + [] == EncodeLineage(l);
  }

  /** The decoder accepts a count of zero and so yields an empty lineage,
      one on which `LastBranch` is not defined. */
  lemma {:induction false} EmptyLineageDecodes(post: seq<byte>)
    ensures DecodeLineage(EncodeU32(0) + post, 0) == Ok((Lineage([]), 4))
  {
    DecodeU32Encoded([], 0, post);
    assert [] + EncodeU32(0) + post == EncodeU32(0) + post;
  }

  /** Decoding a lineage succeeds exactly when the count and all the
      branches it announces are in the stream, and then consumes exactly
      4 + 4 * count bytes. */
  lemma {:induction false} DecodeLineageSucceeds(data: seq<byte>, pos: nat)
    ensures DecodeLineage(data, pos).Ok? <==>
      pos + 4 <= |data| && pos + 4 + 4 * FromBe(data[pos..pos + 4]) <= |data|
    ensures DecodeLineage(data, pos).Ok? ==>
      DecodeLineage(data, pos).value.1 == pos + 4 + 4 * FromBe(data[pos..pos + 4])
  {
    if pos + 4 <= |data| {
      var n := DecodeU32(data, pos).value.0;
      DecodeBranchesSucceeds(data, pos + 4, n);
    }
  }

  /** A stream that ends anywhere inside the encoding of a lineage makes
      the decoder fail. */
  lemma {:induction false} TruncatedLineageFails(l: Lineage, pre: seq<byte>, k: nat)
    requires |l.branches| < U32_BOUND
    requires k < |EncodeLineage(l)|
    ensures DecodeLineage(pre + EncodeLineage(l)[..k], |pre|).Err?
  {
    var data := pre + EncodeLineage(l)[..k];
    DecodeLineageSucceeds(data, |pre|);
    if 4 <= k {
      assert data[|pre|..|pre| + 4] == EncodeLineage(l)[..4];
      assert EncodeLineage(l)[..4] == EncodeU32(|l.branches|);
    }
  }

  /** One loop step of `WriteLineage`: writing branch `i` after the first
      `i` branches gives the encoding of the first `i + 1`. */
  lemma {:induction false} WriteBranchStep(head: seq<byte>, bs: seq<uint32>, i: nat)
    requires i < |bs|
    ensures head + EncodeBranches(bs[..i]) + EncodeU32(bs[i]) == head + EncodeBranches(bs[..i + 1])
  {
    EncodeBranchesSnoc(bs, i);
  }

  /** The count followed by all the branches is the lineage's encoding. */
  lemma {:induction false} WriteLineageDone(start: seq<byte>, l: Lineage)
    ensures start + EncodeU32(AsU32(|l.branches|)) + EncodeBranches(l.branches[..|l.branches|])
      == start + EncodeLineage(l)
  {
    assert l.branches[..|l.branches|] == l.branches;
  }

  /** `Lineage::write`: the count, then each branch number in turn. */
  method WriteLineage(l: Lineage, w: Writer)
    modifies w
    ensures w.buf == old(w.buf) + EncodeLineage(l)
  {
    var bs := l.branches;
    w.WriteU32(AsU32(|bs|));
    ghost var head := w.buf;
    for i := 0 to |bs|
      invariant w.buf == head + EncodeBranches(bs[..i])
    {
      WriteBranchStep(head, bs, i);
      w.WriteU32(bs[i]);
    }
    WriteLineageDone(old(w.buf), l);
  }

  /** `Lineage::read`: a count, then that many branch numbers, failing as
      soon as one read fails. */
  method ReadLineage(r: Reader) returns (res: Result<Lineage, Error>)
    requires r.Valid()
    modifies r
    ensures r.Valid()
    ensures Follows(res, r.pos, DecodeLineage(r.data, old(r.pos)))
  {
    var len := r.ReadU32();
    if len.Err? {
      return Err(len.error);
    }
    var branches: seq<uint32> := [];
    ghost var start := r.pos;
    for i := 0 to len.value
      invariant r.Valid()
      invariant DecodeU32(r.data, old(r.pos)) == Ok((len.value, start))
      invariant DecodeBranches(r.data, start, i) == Ok((branches, r.pos))
    {
      var b := r.ReadU32();
      if b.Err? {
        DecodeBranchesSucceeds(r.data, start, i + 1);
        DecodeBranchesSucceeds(r.data, start, len.value);
        assert 4 * (i + 1) <= 4 * len.value;
        assert DecodeLineage(r.data, old(r.pos)).Err?;
        assert DecodeLineage(r.data, old(r.pos)).error == b.error;
        return Err(b.error);
      }
      branches := branches + [b.value];
    }
    res := Ok(Lineage(branches));
  }

  // ---------------------------------------------------------------------
  // Tip
  // ---------------------------------------------------------------------

  /** The head of one fork: its height, its last block, the block before
      that, and the fork's lineage. */
  datatype Tip = Tip(height: uint64, lastBlockH: Hash, prevBlockH: Hash, lineage: Lineage)

  /** The tip of a chain holding only the genesis block `gbh`. */
  function NewTip(gbh: Hash): (t: Tip)
    ensures t.height == 0
    ensures t.lastBlockH == gbh && t.prevBlockH == gbh
    ensures t.lineage.branches == [0] && LastBranch(t.lineage) == 0
  {
    Tip(0, gbh, gbh, NewLineage())
  }

  /** The tip after block `bh` is pushed onto the fork of `t`. The height is
      a u64, so `t` must not already be at the largest height. */
  function Append(t: Tip, bh: Hash): (r: Tip)
    requires t.height < U64_MAX
    ensures r.height == t.height + 1
    ensures r.lastBlockH == bh && r.prevBlockH == t.lastBlockH
    ensures r.lineage == t.lineage
  {
    Tip(t.height + 1, bh, t.lastBlockH, t.lineage)
  }

  /** The tip after pushing the blocks `hs`, in order, onto `t`. */
  function AppendAll(t: Tip, hs: seq<Hash>): (r: Tip)
    requires t.height + |hs| <= U64_MAX
    ensures r.height == t.height + |hs|
  {
    if hs == [] then t else Append(AppendAll(t, hs[..|hs| - 1]), hs[|hs| - 1])
  }

  /** k appends from the genesis tip give height k, keep the genesis
      lineage, and leave the last two hashes pushed as head and parent. */
  lemma {:induction false} AppendsFromGenesis(g: Hash, hs: seq<Hash>)
    requires |hs| <= U64_MAX
    ensures var t := AppendAll(NewTip(g), hs);
      && t.height == |hs|
      && t.lineage == NewLineage()
      && t.lastBlockH == (if hs == [] then g else hs[|hs| - 1])
      && t.prevBlockH == (if |hs| < 2 then g else hs[|hs| - 2])
  {
    if hs != [] {
      var hs', h := hs[..|hs| - 1], hs[|hs| - 1];
      AppendsFromGenesis(g, hs');
      var t' := AppendAll(NewTip(g), hs');
      assert AppendAll(NewTip(g), hs) == Append(t', h);
      if |hs| >= 2 {
        assert t'.lastBlockH == hs[|hs| - 2];
      }
    }
  }

  /** Every tip reached by appends keeps the lineage it started from, so
      appending never creates a new fork. */
  lemma {:induction false} AppendsKeepLineage(t: Tip, hs: seq<Hash>)
    requires t.height + |hs| <= U64_MAX
    ensures AppendAll(t, hs).lineage == t.lineage
  {
    if hs != [] {
      AppendsKeepLineage(t, hs[..|hs| - 1]);
    }
  }

  /** The bytes written for a tip: the u64 height, the last and previous
      block hashes as raw bytes, then the lineage. */
  function EncodeTip(t: Tip): (r: seq<byte>)
    ensures |r| == 8 + 2 * HASH_SIZE + 4 + 4 * |t.lineage.branches|
  {
    EncodeU64(t.height) + t.lastBlockH + t.prevBlockH + EncodeLineage(t.lineage)
  }

  /** Reading a tip from `pos`, field by field in the order written. */
  function DecodeTip(data: seq<byte>, pos: nat): Result<(Tip, nat), Error>
  {
    match DecodeU64(data, pos)
    case Err(e) => Err(e)
    case Ok((height, p1)) =>
      match DecodeFixed(data, p1, HASH_SIZE)
      case Err(e) => Err(e)
      case Ok((last, p2)) =>
        match DecodeFixed(data, p2, HASH_SIZE)
        case Err(e) => Err(e)
        case Ok((prev, p3)) =>
          match DecodeLineage(data, p3)
          case Err(e) => Err(e)
          case Ok((line, p4)) => Ok((Tip(height, last, prev, line), p4))
  }

  /** `Tip::write`: the height, the two hashes, then the lineage. */
  method WriteTip(t: Tip, w: Writer)
    modifies w
    ensures w.buf == old(w.buf) + EncodeTip(t)
  {
    w.WriteU64(t.height);
    w.WriteFixedBytes(t.lastBlockH);
    w.WriteFixedBytes(t.prevBlockH);
    WriteLineage(t.lineage, w);
  }

  /** `Tip::read`: the fields in the order written, failing as soon as one
      of them cannot be read. */
  method ReadTip(r: Reader) returns (res: Result<Tip, Error>)
    requires r.Valid()
    modifies r
    ensures r.Valid()
    ensures Follows(res, r.pos, DecodeTip(r.data, old(r.pos)))
  {
    var height := r.ReadU64();
    if height.Err? {
      return Err(height.error);
    }
    var last := r.ReadFixedBytes(HASH_SIZE);
    if last.Err? {
      return Err(last.error);
    }
    var prev := r.ReadFixedBytes(HASH_SIZE);
    if prev.Err? {
      return Err(prev.error);
    }
    var line := ReadLineage(r);
    if line.Err? {
      return Err(line.error);
    }
    res := Ok(Tip(height.value, last.value, prev.value, line.value));
  }

  /** Round trip: a tip whose lineage has fewer than 2^32 branches decodes
      to itself, consuming exactly its encoding. */
  lemma {:induction false} TipRoundTrip(t: Tip, pre: seq<byte>, post: seq<byte>)
    requires |t.lineage.branches| < U32_BOUND
    ensures DecodeTip(pre + EncodeTip(t) + post, |pre|) == Ok((t, |pre| + |EncodeTip(t)|))
  {
    var enc := EncodeTip(t);
    var data := pre + enc + post;
    Framed(pre, enc, post);
    assert enc[..|enc|] == enc;
    TipFieldsAt(data, |pre|, t, |enc|);
    var p := |pre| + 8 + 2 * HASH_SIZE;
    var line := EncodeLineage(t.lineage);
    assert data[p..p + |line|] == enc[8 + 2 * HASH_SIZE..];
    DecodeEncodedLineageAt(data, p, t.lineage);
    assert t.lineage.branches[..|t.lineage.branches|] == t.lineage.branches;
  }

  /** Where each field of a tip sits in its encoding. */
  lemma {:induction false} TipLayout(t: Tip)
    ensures EncodeTip(t)[..8] == EncodeU64(t.height)
    ensures EncodeTip(t)[8..8 + HASH_SIZE] == t.lastBlockH
    ensures EncodeTip(t)[8 + HASH_SIZE..8 + 2 * HASH_SIZE] == t.prevBlockH
    ensures EncodeTip(t)[8 + 2 * HASH_SIZE..] == EncodeLineage(t.lineage)
  {
    var h, line := EncodeU64(t.height), EncodeLineage(t.lineage);
    var last: seq<byte>, prev: seq<byte> := t.lastBlockH, t.prevBlockH;
    var enc := EncodeTip(t);
    assert enc == h + (last + (prev + line));
    assert enc[8..] == last + (prev + line);
    assert enc[8 + HASH_SIZE..] == prev + line;
  }

  /** The fixed-size fields of a tip are read back from the first `k` bytes
      of its encoding, as far as those bytes reach. */
  lemma {:induction false} TipFieldsAt(data: seq<byte>, pos: nat, t: Tip, k: nat)
    requires k <= |EncodeTip(t)| && pos + k <= |data|
    requires data[pos..pos + k] == EncodeTip(t)[..k]
    ensures 8 <= k ==> DecodeU64(data, pos) == Ok((t.height, pos + 8))
    ensures 8 + HASH_SIZE <= k ==>
      DecodeFixed(data, pos + 8, HASH_SIZE) == Ok((t.lastBlockH, pos + 8 + HASH_SIZE))
    ensures 8 + 2 * HASH_SIZE <= k ==>
      DecodeFixed(data, pos + 8 + HASH_SIZE, HASH_SIZE) == Ok((t.prevBlockH, pos + 8 + 2 * HASH_SIZE))
  {
    var enc := EncodeTip(t);
    if 8 <= k {
      assert DecodeU64(data, pos) == Ok((t.height, pos + 8)) by {
        TipLayout(t);
        SubSlice(data, pos, enc, k, 0, 8);
        DecodeU64At(data, pos, t.height);
      }
    }
    if 8 + HASH_SIZE <= k {
      assert data[pos + 8..pos + 8 + HASH_SIZE] == t.lastBlockH by {
        TipLayout(t);
        SubSlice(data, pos, enc, k, 8, 8 + HASH_SIZE);
      }
    }
    if 8 + 2 * HASH_SIZE <= k {
      assert data[pos + 8 + HASH_SIZE..pos + 8 + 2 * HASH_SIZE] == t.prevBlockH by {
        TipLayout(t);
        SubSlice(data, pos, enc, k, 8 + HASH_SIZE, 8 + 2 * HASH_SIZE);
      }
    }
  }

  /** A stream that ends anywhere inside the encoding of a tip makes the
      decoder fail. */
  lemma {:induction false} TruncatedTipFails(t: Tip, pre: seq<byte>, k: nat)
    requires |t.lineage.branches| < U32_BOUND
    requires k < |EncodeTip(t)|
    ensures DecodeTip(pre + EncodeTip(t)[..k], |pre|).Err?
  {
    var enc := EncodeTip(t);
    var data := pre + enc[..k];
    assert data[|pre|..|pre| + k] == enc[..k];
    TipFieldsAt(data, |pre|, t, k);
    var fixed := 8 + 2 * HASH_SIZE;
    if fixed <= k {
      var line := EncodeLineage(t.lineage);
      assert enc == enc[..fixed] + line;
      assert data == data[..|pre| + fixed] + line[..k - fixed];
      TruncatedLineageFails(t.lineage, data[..|pre| + fixed], k - fixed);
    }
  }
}
