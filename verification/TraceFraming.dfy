// The trace file: length-framed records, and the two programs that read them back.
module TraceFraming {
  import opened Bytes

  /** A message type with its protobuf serialiser and parser. */
  datatype Codec<!T> = Codec(encode: T -> seq<Byte>, decode: seq<Byte> -> T)

  /** Both readers hand the parser one zero byte more than the serialiser produced. */
  ghost predicate Lawful<T(!new)>(c: Codec<T>) {
    forall r: T :: c.decode(c.encode(r) + [0]) == r
  }

  /** The readers compute size + 1 in 32 bits. */
  predicate Fits<T>(c: Codec<T>, r: T) {
    |c.encode(r)| < U32_MAX
  }

  ghost predicate AllFit<T>(c: Codec<T>, rs: seq<T>) {
    forall k :: 0 <= k < |rs| ==> Fits(c, rs[k])
  }

  /** What `serialize` appends to the stream; the size is truncated to 32 bits. */
  function Frame<T>(c: Codec<T>, r: T): (f: seq<Byte>)
    ensures |f| == 4 + |c.encode(r)|
  {
    ToLE(|c.encode(r)|, 4) + c.encode(r)
  }

  /** The file after the records `rs` were appended in order. */
  function Frames<T>(c: Codec<T>, rs: seq<T>): seq<Byte> {
    if rs == [] then [] else Frames(c, rs[..|rs| - 1]) + Frame(c, rs[|rs| - 1])
  }

  /** Where record k starts. */
  function Offset<T>(c: Codec<T>, rs: seq<T>, k: nat): nat
    requires k <= |rs|
  {
    |Frames(c, rs[..k])|
  }

  datatype ReadResult<T> = Got(record: T, next: nat) | Eof | Overflow

  /** One record at a byte position: 32-bit size, then that many bytes plus the extra zero. */
  function ReadRecord<T>(c: Codec<T>, file: seq<Byte>, pos: nat): (r: ReadResult<T>)
    requires pos <= |file|
    ensures r.Got? ==> pos + 4 <= r.next <= |file|
  {
    if |file| - pos < 4 then Eof
    else
      var size := FromLE(file[pos..pos + 4]);
      if size == U32_MAX then Overflow
      else if |file| - pos - 4 < size then Eof
      else Got(c.decode(file[pos + 4..pos + 4 + size] + [0]), pos + 4 + size)
  }

  lemma FramesAppend<T>(c: Codec<T>, rs: seq<T>, r: T)
    ensures Frames(c, rs + [r]) == Frames(c, rs) + Frame(c, r)
  {
    assert (rs + [r])[..|rs|] == rs;
  }

  lemma OffsetStep<T>(c: Codec<T>, rs: seq<T>, k: nat)
    requires k < |rs|
    ensures Frames(c, rs[..k + 1]) == Frames(c, rs[..k]) + Frame(c, rs[k])
    ensures Offset(c, rs, k + 1) == Offset(c, rs, k) + 4 + |c.encode(rs[k])|
  {
    assert rs[..k + 1] == rs[..k] + [rs[k]];
    FramesAppend(c, rs[..k], rs[k]);
  }

  lemma {:induction false} FramesPrefix<T>(c: Codec<T>, rs: seq<T>, k: nat)
    requires k <= |rs|
    ensures Frames(c, rs[..k]) <= Frames(c, rs)
    decreases |rs| - k
  {
    if k < |rs| {
      OffsetStep(c, rs, k);
      FramesPrefix(c, rs, k + 1);
    } else {
      assert rs[..k] == rs;
    }
  }

  lemma {:induction false} OffsetMonotone<T>(c: Codec<T>, rs: seq<T>, j: nat, k: nat)
    requires j <= k <= |rs|
    ensures Offset(c, rs, j) + 4 * (k - j) <= Offset(c, rs, k)
    decreases k - j
  {
    if j < k {
      OffsetStep(c, rs, j);
      OffsetMonotone(c, rs, j + 1, k);
    }
  }

  /** The size field and the payload of record k, wherever enough of the file is there. */
  lemma FrameParts<T>(c: Codec<T>, rs: seq<T>, k: nat)
    requires k < |rs| && Fits(c, rs[k])
    ensures Offset(c, rs, k + 1) == Offset(c, rs, k) + 4 + |c.encode(rs[k])| == |Frames(c, rs[..k + 1])|
    ensures var pos, enc, upto := Offset(c, rs, k), c.encode(rs[k]), Frames(c, rs[..k + 1]);
            FromLE(upto[pos..pos + 4]) == |enc| && upto[pos + 4..pos + 4 + |enc|] == enc
  {
    OffsetStep(c, rs, k);
    var enc := c.encode(rs[k]);
    SliceOfConcat(Frames(c, rs[..k]), ToLE(|enc|, 4), enc);
    assert Frames(c, rs[..k + 1]) == Frames(c, rs[..k]) + ToLE(|enc|, 4) + enc;
    U32RoundTrip(|enc|);
  }

  /** In any file whose first bytes hold the first k + 1 records, reading at record k's offset gives record k. */
  lemma ReadAtOffset<T(!new)>(c: Codec<T>, rs: seq<T>, k: nat, file: seq<Byte>)
    requires Lawful(c) && AllFit(c, rs) && k < |rs|
    requires Frames(c, rs[..k + 1]) <= file
    ensures Offset(c, rs, k) <= |file|
    ensures ReadRecord(c, file, Offset(c, rs, k)) == Got(rs[k], Offset(c, rs, k + 1))
  {
    FrameParts(c, rs, k);
    var pos, upto := Offset(c, rs, k), Frames(c, rs[..k + 1]);
    SliceOfPrefix(upto, file, pos, pos + 4);
    SliceOfPrefix(upto, file, pos + 4, |upto|);
  }

  /** In a file cut inside record k, reading at record k's offset reports the end of the file. */
  lemma ReadCut<T(!new)>(c: Codec<T>, rs: seq<T>, k: nat, cut: nat)
    requires AllFit(c, rs) && k < |rs| && cut <= |Frames(c, rs)|
    requires Offset(c, rs, k) <= cut < Offset(c, rs, k + 1)
    ensures ReadRecord(c, Frames(c, rs)[..cut], Offset(c, rs, k)) == Eof
  {
    FrameParts(c, rs, k);
    FramesPrefix(c, rs, k + 1);
    var whole, pos := Frames(c, rs), Offset(c, rs, k);
    if cut - pos >= 4 {
      SliceOfPrefix(Frames(c, rs[..k + 1]), whole, pos, pos + 4);
      SliceOfPrefix(whole[..cut], whole, pos, pos + 4);
    }
  }

  /** Every complete record from `pos` on. */
  function AllRecords<T>(c: Codec<T>, file: seq<Byte>, pos: nat): seq<T>
    requires pos <= |file|
    decreases |file| - pos
  {
    match ReadRecord(c, file, pos)
    case Got(r, next) => [r] + AllRecords(c, file, next)
    case _ => []
  }

  /** The number of records that lie completely in the first `cut` bytes. */
  function Complete<T>(c: Codec<T>, rs: seq<T>, cut: nat): (n: nat)
    ensures n <= |rs|
    ensures Offset(c, rs, n) <= cut
    ensures n == |rs| || Offset(c, rs, n + 1) > cut
  {
    CompleteFrom(c, rs, cut, 0)
  }

  function CompleteFrom<T>(c: Codec<T>, rs: seq<T>, cut: nat, k: nat): (n: nat)
    requires k <= |rs| && Offset(c, rs, k) <= cut
    ensures k <= n <= |rs|
    ensures Offset(c, rs, n) <= cut
    ensures n == |rs| || Offset(c, rs, n + 1) > cut
    decreases |rs| - k
  {
    if k < |rs| && Offset(c, rs, k + 1) <= cut then CompleteFrom(c, rs, cut, k + 1) else k
  }

  lemma {:induction false} CutFrom<T(!new)>(c: Codec<T>, rs: seq<T>, cut: nat, k: nat)
    requires Lawful(c) && AllFit(c, rs) && cut <= |Frames(c, rs)|
    requires k <= Complete(c, rs, cut) && Offset(c, rs, k) <= cut
    ensures AllRecords(c, Frames(c, rs)[..cut], Offset(c, rs, k)) == rs[k..Complete(c, rs, cut)]
    decreases |rs| - k
  {
    hide ReadRecord, Frames, Complete;
    var n, file := Complete(c, rs, cut), Frames(c, rs)[..cut];
    if k < n {
      OffsetMonotone(c, rs, k + 1, n);
      FramesPrefix(c, rs, k + 1);
      assert Frames(c, rs[..k + 1]) <= file;
      ReadAtOffset(c, rs, k, file);
      CutFrom(c, rs, cut, k + 1);
      assert rs[k..n] == [rs[k]] + rs[k + 1..n];
    } else if k < |rs| {
      ReadCut(c, rs, k, cut);
    } else {
      assert rs[..k] == rs;
    }
  }

  /** Whatever the cut, the reader returns exactly the longest prefix of complete records. */
  lemma TruncatedTraceIsPrefix<T(!new)>(c: Codec<T>, rs: seq<T>, cut: nat)
    requires Lawful(c) && AllFit(c, rs) && cut <= |Frames(c, rs)|
    ensures AllRecords(c, Frames(c, rs)[..cut], 0) == rs[..Complete(c, rs, cut)]
  {
    CutFrom(c, rs, cut, 0);
  }

  /** Reading back an intact file gives the records that were written, and nothing else. */
  lemma TraceRoundTrip<T(!new)>(c: Codec<T>, rs: seq<T>)
    requires Lawful(c) && AllFit(c, rs)
    ensures AllRecords(c, Frames(c, rs), 0) == rs
  {
    var cut := |Frames(c, rs)|;
    TruncatedTraceIsPrefix(c, rs, cut);
    assert Frames(c, rs)[..cut] == Frames(c, rs);
    var n := Complete(c, rs, cut);
    if n < |rs| {
      FramesPrefix(c, rs, n + 1);
      assert false;
    }
  }

  /** std::ifstream as the readers use it: a short read sets eof, and later reads extract nothing. */
  class InputStream {
    const data: seq<Byte>
    var pos: nat
    var eof: bool

    ghost predicate Valid()
      reads this
    {
      pos <= |data|
    }

    constructor (bytes: seq<Byte>)
      ensures Valid() && data == bytes && pos == 0 && !eof
    {
      data, pos, eof := bytes, 0, false;
    }

    /** A buffer of which only the first bytes were overwritten. */
    static function Leftover(read: seq<Byte>, buffer: seq<Byte>): (bytes: seq<Byte>)
      ensures |read| <= |buffer| ==> |bytes| == |buffer| && read <= bytes
    {
      if |read| <= |buffer| then read + buffer[|read|..] else read
    }

    /** Reads n bytes; on a short read the rest of the caller's buffer keeps its content. */
    method Read(n: nat, buffer: seq<Byte>) returns (bytes: seq<Byte>)
      requires Valid() && |buffer| == n
      modifies this
      ensures Valid() && |bytes| == n
      ensures eof == (old(eof) || |data| - old(pos) < n)
      ensures !eof ==> pos == old(pos) + n && bytes == data[old(pos)..pos]
      ensures eof ==> bytes == Leftover(if old(eof) then [] else data[old(pos)..], buffer)
    {
      if eof {
        bytes := buffer;
      } else if |data| - pos < n {
        bytes := data[pos..] + buffer[|data| - pos..];
        pos, eof := |data|, true;
      } else {
        bytes := data[pos..pos + n];
        pos := pos + n;
      }
    }
  }

  /** A complete-looking size field of 2^32 - 1 makes the readers allocate an empty buffer and overrun it. */
  predicate Overflows<T>(c: Codec<T>, file: seq<Byte>, pos: nat)
    requires pos <= |file|
    decreases |file| - pos
  {
    match ReadRecord(c, file, pos)
    case Got(_, next) => Overflows(c, file, next)
    case Eof => false
    case Overflow => true
  }

  /** Reading overruns exactly at a size field of 2^32 - 1, and ends exactly where the size or the payload is cut short. */
  lemma ReadFailsExactly<T>(c: Codec<T>, file: seq<Byte>, pos: nat)
    requires pos <= |file|
    ensures ReadRecord(c, file, pos) == Overflow <==> pos + 4 <= |file| && FromLE(file[pos..pos + 4]) == 0xffff_ffff
    ensures ReadRecord(c, file, pos) == Eof <==>
              pos + 4 > |file| || (FromLE(file[pos..pos + 4]) != 0xffff_ffff && pos + 4 + FromLE(file[pos..pos + 4]) > |file|)
  {
  }

  /** A complete record at `pos` comes first; what follows it is read next. */
  lemma FullStep<T>(c: Codec<T>, file: seq<Byte>, pos: nat)
    requires pos + 4 <= |file| && !Overflows(c, file, pos)
    requires pos + 4 + FromLE(file[pos..pos + 4]) <= |file|
    ensures var size := FromLE(file[pos..pos + 4]);
            var next := pos + 4 + size;
            && AllRecords(c, file, pos) == [c.decode(file[pos + 4..next] + [0])] + AllRecords(c, file, next)
            && !Overflows(c, file, next)
  {
  }

  /** A size field or a payload that is cut short ends the trace. */
  lemma ShortStep<T>(c: Codec<T>, file: seq<Byte>, pos: nat)
    requires pos <= |file| && !Overflows(c, file, pos)
    requires pos + 4 <= |file| ==> pos + 4 + FromLE(file[pos..pos + 4]) > |file|
    ensures AllRecords(c, file, pos) == []
  {
  }

  /** The loop of `parseTraceFile`. `stack` is what the uninitialised size field holds at each turn. */
  method ParseTraceFile<T>(c: Codec<T>, file: seq<Byte>, stack: seq<Byte>) returns (records: seq<T>)
    requires |stack| == 4
    requires !Overflows(c, file, 0)
    ensures records == AllRecords(c, file, 0)
  {
    hide InputStream.Leftover, ReadRecord, AllRecords, Overflows, FromLE;
    var trace := new InputStream(file);
    records := [];
    while !trace.eof
      invariant trace.Valid() && trace.data == file
      invariant !trace.eof ==> records + AllRecords(c, file, trace.pos) == AllRecords(c, file, 0)
      invariant !trace.eof ==> !Overflows(c, file, trace.pos)
      invariant trace.eof ==> records == AllRecords(c, file, 0)
      decreases !trace.eof, |file| - trace.pos
    {
      ghost var start := trace.pos;
      var raw := trace.Read(4, stack);
      var size := FromLE(raw);
      var payload := trace.Read(size, seq(size, _ => 0));
      var record := c.decode(payload + [0]);
      if trace.eof {
        ShortStep(c, file, start);
        break;
      }
      FullStep(c, file, start);
      assert records + ([record] + AllRecords(c, file, trace.pos)) == records + [record] + AllRecords(c, file, trace.pos);
      records := records + [record];
    }
  }
}
