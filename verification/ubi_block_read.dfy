/**
 * The read path of a UBI block device (drivers/mtd/ubi/block.c, lines 41-79):
 * a request for `blkcnt` blocks starting at block `start` becomes a sequence
 * of `ubi_read(desc, leb, buffer, offset, len)` calls, none of which crosses
 * a LEB boundary.
 *
 * `ubi_read` itself is a parameter: a function from (leb, offset, len) to the
 * value it returns, negative on failure.  The calls the loop issues are kept
 * in a ghost trace.  The chunks the loop is meant to issue are given by
 * `RequestPlan`, and the lemmas below say what that plan is: chunks inside
 * one LEB each, contiguous, covering exactly the requested bytes.
 */
module UbiBlockRead {
  import opened Wrappers
  import opened UbiBlockGeometry

  const U64_LIMIT: int := 0x1_0000_0000_0000_0000
  const LBA32_LIMIT: int := 0x1_0000_0000

  /** `len` bytes at byte `offset` of LEB `leb`. */
  datatype Chunk = Chunk(leb: int, offset: int, len: int)

  /** One call `ubi_read(desc, leb, dest, offset, len)`. */
  datatype ReadCall = ReadCall(leb: int, dest: int, offset: int, len: int)

  /** What `ubi_read` returns for (leb, offset, len); negative is an error. */
  type UbiRead = (int, int, int) -> int

  function ReadResult(ubiRead: UbiRead, c: ReadCall): int
  {
    ubiRead(c.leb, c.offset, c.len)
  }

  /**
   * What a run of `calls` returns when it stops at the first failure: the
   * result of the first call that fails, or `success` when none does.
   */
  function Outcome(ubiRead: UbiRead, calls: seq<ReadCall>, success: int): int
  {
    if calls == [] then success
    else if ReadResult(ubiRead, calls[0]) < 0 then ReadResult(ubiRead, calls[0])
    else Outcome(ubiRead, calls[1..], success)
  }

  /** A run ends in success exactly when every call succeeds, and otherwise in an error. */
  lemma {:induction false} OutcomeMeaning(ubiRead: UbiRead, calls: seq<ReadCall>, success: int)
    requires 0 <= success
    ensures Outcome(ubiRead, calls, success) == success
        <==> forall i :: 0 <= i < |calls| ==> ReadResult(ubiRead, calls[i]) >= 0
    ensures Outcome(ubiRead, calls, success) != success ==> Outcome(ubiRead, calls, success) < 0
  {
    if calls != [] && ReadResult(ubiRead, calls[0]) >= 0 {
      OutcomeMeaning(ubiRead, calls[1..], success);
      assert forall i :: 1 <= i < |calls| ==> calls[i] == calls[1..][i - 1];
    }
  }

  /**
   * A run that issued a prefix of `calls`, every call but the last
   * succeeding and the last failing, ends in the outcome of `calls`.
   */
  lemma {:induction false} OutcomeOfFailedRun(ubiRead: UbiRead, calls: seq<ReadCall>, issued: seq<ReadCall>, s: int)
    requires 0 <= s && issued != [] && |issued| <= |calls| && issued == calls[..|issued|]
    requires forall i :: 0 <= i < |issued| - 1 ==> ReadResult(ubiRead, issued[i]) >= 0
    requires ReadResult(ubiRead, issued[|issued| - 1]) < 0
    ensures Outcome(ubiRead, calls, s) == ReadResult(ubiRead, issued[|issued| - 1])
  {
    assert calls[0] == issued[0];
    if |issued| > 1 {
      assert ReadResult(ubiRead, issued[0]) >= 0;
      assert calls[1..][..|issued| - 1] == issued[1..];
      OutcomeOfFailedRun(ubiRead, calls[1..], issued[1..], s);
    }
  }

  /** The byte of the volume at which a chunk starts, counting LEBs back to back. */
  function FlatStart(c: Chunk, lebSize: int): int
  {
    c.leb * lebSize + c.offset
  }

  function SumLen(cs: seq<Chunk>): int
  {
    if cs == [] then 0 else cs[0].len + SumLen(cs[1..])
  }

  /**
   * The chunks the split loop walks through from LEB `leb`, byte `offset`,
   * with `bytesLeft` bytes still to read: each chunk runs to the end of its
   * LEB or to the end of the request, whichever comes first.
   */
  function Plan(leb: int, offset: int, bytesLeft: int, lebSize: int): seq<Chunk>
    requires 0 <= offset < lebSize && 0 <= bytesLeft
    decreases bytesLeft
  {
    if bytesLeft == 0 then []
    else
      var len := if offset + bytesLeft > lebSize then lebSize - offset else bytesLeft;
      [Chunk(leb, offset, len)] + Plan(leb + 1, 0, bytesLeft - len, lebSize)
  }

  /** The plan of a whole request: start at byte start*blksz, read blkcnt*blksz bytes. */
  function RequestPlan(lebSize: int, blksz: int, start: int, blkcnt: int): seq<Chunk>
    requires 0 < lebSize && 0 <= start * blksz && 0 <= blkcnt * blksz
  {
    var pos := start * blksz;
    Plan(pos / lebSize, pos % lebSize, blkcnt * blksz, lebSize)
  }

  /** The calls as block.c issues them: every chunk goes to `buffer` itself. */
  function SameBufferCalls(plan: seq<Chunk>, buffer: int): seq<ReadCall>
  {
    if plan == [] then []
    else [ReadCall(plan[0].leb, buffer, plan[0].offset, plan[0].len)] + SameBufferCalls(plan[1..], buffer)
  }

  /** The calls with the destination advanced past every chunk already read. */
  function AdvancingCalls(plan: seq<Chunk>, dest: int): seq<ReadCall>
  {
    if plan == [] then []
    else [ReadCall(plan[0].leb, dest, plan[0].offset, plan[0].len)] + AdvancingCalls(plan[1..], dest + plan[0].len)
  }

  /** The calls read the plan's chunks, one each, in order. */
  predicate CallsFollowPlan(calls: seq<ReadCall>, plan: seq<Chunk>)
  {
    && |calls| == |plan|
    && forall i :: 0 <= i < |calls| ==>
         calls[i].leb == plan[i].leb && calls[i].offset == plan[i].offset && calls[i].len == plan[i].len
  }

  /** Every call reads a non-empty range inside one LEB. */
  predicate CallsInsideLeb(calls: seq<ReadCall>, lebSize: int)
  {
    forall i :: 0 <= i < |calls| ==>
      0 <= calls[i].offset && 0 < calls[i].len && calls[i].offset + calls[i].len <= lebSize
  }

  /**
   * After all `calls` succeed, the byte of the volume (counting LEBs back to
   * back) that memory address `a` holds; a later call overwrites an earlier one.
   */
  function Landed(calls: seq<ReadCall>, lebSize: int, a: int): Option<int>
  {
    if calls == [] then None
    else match Landed(calls[1..], lebSize, a)
      case Some(v) => Some(v)
      case None =>
        var c := calls[0];
        if c.dest <= a < c.dest + c.len then Some(c.leb * lebSize + c.offset + (a - c.dest)) else None
  }

  /**
   * What block.c needs of its arguments for its C arithmetic to stay defined:
   * `pos` fits its u64, `to_read`, `bytes_left` and `offset + to_read` fit an
   * int, and so does every LEB number the loop reaches.
   */
  predicate ReadInRange(lebSize: int, blksz: int, start: int, blkcnt: int)
  {
    && 0 < lebSize <= INT_MAX && 0 < blksz <= INT_MAX && 0 <= start && 0 <= blkcnt
    && start * blksz < U64_LIMIT
    && (start * blksz) % lebSize + blkcnt * blksz <= INT_MAX
    && (start * blksz + blkcnt * blksz) / lebSize < INT_MAX
  }

  // ---------------------------------------------------------------------
  // Properties of the plan
  // ---------------------------------------------------------------------

  /** Every chunk is non-empty and lies inside one LEB. */
  predicate ChunksInsideLeb(plan: seq<Chunk>, lebSize: int)
  {
    forall i :: 0 <= i < |plan| ==>
      0 <= plan[i].offset && 0 < plan[i].len && plan[i].offset + plan[i].len <= lebSize
  }

  lemma {:induction false} PlanWithinLeb(leb: int, offset: int, bytesLeft: int, lebSize: int)
    requires 0 <= offset < lebSize && 0 <= bytesLeft
    decreases bytesLeft
    ensures ChunksInsideLeb(Plan(leb, offset, bytesLeft, lebSize), lebSize)
  {
    if bytesLeft > 0 {
      var len := if offset + bytesLeft > lebSize then lebSize - offset else bytesLeft;
      var plan, rest := Plan(leb, offset, bytesLeft, lebSize), Plan(leb + 1, 0, bytesLeft - len, lebSize);
      assert plan == [Chunk(leb, offset, len)] + rest;
      PlanWithinLeb(leb + 1, 0, bytesLeft - len, lebSize);
      forall i | 0 <= i < |plan|
        ensures 0 <= plan[i].offset && 0 < plan[i].len && plan[i].offset + plan[i].len <= lebSize
      {
        if i > 0 {
          assert plan[i] == rest[i - 1];
        }
      }
    }
  }

  /**
   * The first chunk is at (leb, offset) and chunk i is at LEB leb + i; every
   * chunk after the first starts at offset 0.  No chunks at all exactly when
   * nothing is left to read.
   */
  lemma {:induction false} PlanAddresses(leb: int, offset: int, bytesLeft: int, lebSize: int)
    requires 0 <= offset < lebSize && 0 <= bytesLeft
    decreases bytesLeft
    ensures var plan := Plan(leb, offset, bytesLeft, lebSize);
      && (plan == [] <==> bytesLeft == 0)
      && forall i :: 0 <= i < |plan| ==>
           plan[i].leb == leb + i && plan[i].offset == (if i == 0 then offset else 0)
  {
    if bytesLeft > 0 {
      var len := if offset + bytesLeft > lebSize then lebSize - offset else bytesLeft;
      PlanAddresses(leb + 1, 0, bytesLeft - len, lebSize);
    }
  }

  /**
   * The chunks are contiguous in the volume's flat byte space: chunk i starts
   * where the chunks before it end, and together they cover exactly
   * `bytesLeft` bytes.
   */
  lemma {:induction false} PlanCovers(leb: int, offset: int, bytesLeft: int, lebSize: int)
    requires 0 <= offset < lebSize && 0 <= bytesLeft
    decreases bytesLeft
    ensures var plan := Plan(leb, offset, bytesLeft, lebSize);
      && SumLen(plan) == bytesLeft
      && forall i :: 0 <= i < |plan| ==>
           FlatStart(plan[i], lebSize) == leb * lebSize + offset + SumLen(plan[..i])
  {
    if bytesLeft > 0 {
      var plan := Plan(leb, offset, bytesLeft, lebSize);
      var len := plan[0].len;
      var rest := Plan(leb + 1, 0, bytesLeft - len, lebSize);
      assert plan == [plan[0]] + rest;
      PlanCovers(leb + 1, 0, bytesLeft - len, lebSize);
      assert (leb + 1) * lebSize == leb * lebSize + lebSize;
      forall i | 0 <= i < |plan|
        ensures FlatStart(plan[i], lebSize) == leb * lebSize + offset + SumLen(plan[..i])
      {
        if i > 0 {
          assert plan[..i][1..] == rest[..i - 1];
        }
      }
    }
  }

  /** A request starts at LEB start*blksz / leb_size, offset start*blksz % leb_size. */
  lemma RequestPlanStart(lebSize: int, blksz: int, start: int, blkcnt: int)
    requires ReadInRange(lebSize, blksz, start, blkcnt)
    ensures var plan := RequestPlan(lebSize, blksz, start, blkcnt);
      && (plan == [] <==> blkcnt == 0)
      && (plan != [] ==> plan[0].leb == (start * blksz) / lebSize && plan[0].offset == (start * blksz) % lebSize)
      && forall i :: 1 <= i < |plan| ==> plan[i].leb == plan[i - 1].leb + 1 && plan[i].offset == 0
  {
    var pos := start * blksz;
    PlanAddresses(pos / lebSize, pos % lebSize, blkcnt * blksz, lebSize);
    assert blkcnt * blksz == 0 <==> blkcnt == 0;
  }

  /** A request's chunks cover exactly blkcnt*blksz bytes from byte start*blksz, one LEB each. */
  lemma RequestPlanCovers(lebSize: int, blksz: int, start: int, blkcnt: int)
    requires ReadInRange(lebSize, blksz, start, blkcnt)
    ensures var plan := RequestPlan(lebSize, blksz, start, blkcnt);
      && SumLen(plan) == blkcnt * blksz
      && forall i :: 0 <= i < |plan| ==>
           && FlatStart(plan[i], lebSize) == start * blksz + SumLen(plan[..i])
           && 0 <= plan[i].offset && 0 < plan[i].len && plan[i].offset + plan[i].len <= lebSize
  {
    var pos, total := start * blksz, blkcnt * blksz;
    var plan := RequestPlan(lebSize, blksz, start, blkcnt);
    assert plan == Plan(pos / lebSize, pos % lebSize, total, lebSize);
    PlanCovers(pos / lebSize, pos % lebSize, total, lebSize);
    PlanWithinLeb(pos / lebSize, pos % lebSize, total, lebSize);
    assert pos / lebSize * lebSize + pos % lebSize == pos;
  }

  /** Every LEB number and every chunk end fits an int. */
  predicate ChunksFitInt(plan: seq<Chunk>)
  {
    forall i :: 0 <= i < |plan| ==> 0 <= plan[i].leb < INT_MAX && plan[i].offset + plan[i].len <= INT_MAX
  }

  /**
   * Every argument of every `ubi_read` of a request in range fits an int,
   * and so does the LEB number after the last one.
   */
  lemma RequestPlanFitsInt(lebSize: int, blksz: int, start: int, blkcnt: int)
    requires ReadInRange(lebSize, blksz, start, blkcnt)
    ensures ChunksFitInt(RequestPlan(lebSize, blksz, start, blkcnt))
  {
    var pos, total := start * blksz, blkcnt * blksz;
    var leb, offset := pos / lebSize, pos % lebSize;
    assert 0 <= pos && 0 <= total;
    assert 0 <= leb;
    assert leb * lebSize + offset == pos;
    var limit := leb * lebSize + offset + total;
    assert limit / lebSize < INT_MAX by {
      assert limit == start * blksz + blkcnt * blksz;
    }
    PlanFitsInt(leb, offset, total, lebSize);
  }

  lemma PlanFitsInt(leb: int, offset: int, total: int, lebSize: int)
    requires 0 <= leb && 0 <= offset < lebSize <= INT_MAX && 0 <= total
    requires (leb * lebSize + offset + total) / lebSize < INT_MAX
    ensures ChunksFitInt(Plan(leb, offset, total, lebSize))
  {
    var plan := Plan(leb, offset, total, lebSize);
    var first, limit := leb * lebSize + offset, leb * lebSize + offset + total;
    PlanAddresses(leb, offset, total, lebSize);
    PlanCovers(leb, offset, total, lebSize);
    PlanWithinLeb(leb, offset, total, lebSize);
    forall i | 0 <= i < |plan|
      ensures 0 <= plan[i].leb < INT_MAX && plan[i].offset + plan[i].len <= INT_MAX
    {
      var c := plan[i];
      assert 0 <= c.offset && 0 < c.len && c.offset + c.len <= lebSize;
      PrefixSumBound(plan, i);
      assert FlatStart(c, lebSize) == first + SumLen(plan[..i]);
      assert c.leb == leb + i;
      LebBound(c.leb, c.offset, lebSize, first, limit);
    }
  }

  lemma {:induction false} PrefixSumBound(plan: seq<Chunk>, i: int)
    requires 0 <= i < |plan|
    requires forall j :: 0 <= j < |plan| ==> 0 < plan[j].len
    ensures 0 <= SumLen(plan[..i]) && SumLen(plan[..i]) + plan[i].len <= SumLen(plan)
  {
    if i > 0 {
      assert plan[..i][1..] == plan[1..][..i - 1];
      PrefixSumBound(plan[1..], i - 1);
    } else {
      SumLenNonNegative(plan[1..]);
    }
  }

  lemma {:induction false} SumLenNonNegative(cs: seq<Chunk>)
    requires forall j :: 0 <= j < |cs| ==> 0 < cs[j].len
    ensures 0 <= SumLen(cs)
  {
    if cs != [] {
      SumLenNonNegative(cs[1..]);
    }
  }

  /** A byte of LEB leb in [pos, limit) puts leb between pos / lebSize and limit / lebSize. */
  lemma LebBound(leb: int, offset: int, lebSize: int, pos: int, limit: int)
    requires 0 <= offset < lebSize && 0 <= pos
    requires pos <= leb * lebSize + offset < limit
    ensures pos / lebSize <= leb <= limit / lebSize
  {
    var q := limit / lebSize;
    if leb > q {
      MulMonotone(q + 1, leb, lebSize);
      assert false;
    }
    var p := pos / lebSize;
    if leb < p {
      MulMonotone(leb + 1, p, lebSize);
      assert false;
    }
  }

  lemma MulMonotone(a: int, b: int, n: int)
    requires a <= b && 0 < n
    ensures a * n <= b * n && (a + 1) * n == a * n + n
  {
  }

  lemma {:induction false} SameBufferCallsFollowPlan(plan: seq<Chunk>, buffer: int)
    ensures CallsFollowPlan(SameBufferCalls(plan, buffer), plan)
    ensures forall i :: 0 <= i < |SameBufferCalls(plan, buffer)| ==> SameBufferCalls(plan, buffer)[i].dest == buffer
  {
    if plan != [] {
      SameBufferCallsFollowPlan(plan[1..], buffer);
      var calls := SameBufferCalls(plan, buffer);
      assert calls[1..] == SameBufferCalls(plan[1..], buffer);
      forall i | 0 <= i < |calls|
        ensures calls[i].leb == plan[i].leb && calls[i].offset == plan[i].offset
        ensures calls[i].len == plan[i].len && calls[i].dest == buffer
      {
        if i > 0 {
          assert calls[i] == calls[1..][i - 1];
        }
      }
    }
  }

  lemma {:induction false} AdvancingCallsFollowPlan(plan: seq<Chunk>, dest: int)
    ensures CallsFollowPlan(AdvancingCalls(plan, dest), plan)
  {
    if plan != [] {
      AdvancingCallsFollowPlan(plan[1..], dest + plan[0].len);
      var calls := AdvancingCalls(plan, dest);
      assert calls[1..] == AdvancingCalls(plan[1..], dest + plan[0].len);
      forall i | 0 <= i < |calls|
        ensures calls[i].leb == plan[i].leb && calls[i].offset == plan[i].offset && calls[i].len == plan[i].len
      {
        if i > 0 {
          assert calls[i] == calls[1..][i - 1];
        }
      }
    }
  }

  /** A prefix of the calls of a plan whose chunks lie inside one LEB each reads inside one LEB each. */
  lemma PrefixInsideLeb(issued: seq<ReadCall>, calls: seq<ReadCall>, plan: seq<Chunk>, lebSize: int)
    requires CallsFollowPlan(calls, plan) && ChunksInsideLeb(plan, lebSize)
    requires |issued| <= |calls| && issued == calls[..|issued|]
    ensures CallsInsideLeb(issued, lebSize)
  {
    forall i | 0 <= i < |issued|
      ensures 0 <= issued[i].offset && 0 < issued[i].len && issued[i].offset + issued[i].len <= lebSize
    {
      assert issued[i] == calls[i];
    }
  }

  /** Moving the next pending call to the issued ones keeps the two a split of the whole list. */
  lemma IssueNext(issued: seq<ReadCall>, call: ReadCall, next: seq<ReadCall>, calls: seq<ReadCall>)
    requires issued + ([call] + next) == calls
    ensures (issued + [call]) + next == calls
    ensures |issued| + 1 <= |calls| && calls[..|issued| + 1] == issued + [call]
  {
    assert (issued + [call]) + next == issued + ([call] + next);
    assert calls[..|issued| + 1] == (issued + [call] + next)[..|issued| + 1];
  }

  /** One turn of the loop as block.c writes it: the first chunk to `buffer`, then the rest. */
  lemma SameBufferStep(leb: int, offset: int, bytesLeft: int, lebSize: int, buffer: int, len: int)
    requires 0 <= offset < lebSize && 0 < bytesLeft
    requires len == if offset + bytesLeft > lebSize then lebSize - offset else bytesLeft
    ensures SameBufferCalls(Plan(leb, offset, bytesLeft, lebSize), buffer)
         == [ReadCall(leb, buffer, offset, len)] + SameBufferCalls(Plan(leb + 1, 0, bytesLeft - len, lebSize), buffer)
  {
  }

  /** One turn of the advancing loop: the first chunk to `dest`, the rest after it. */
  lemma AdvancingStep(leb: int, offset: int, bytesLeft: int, lebSize: int, dest: int, len: int)
    requires 0 <= offset < lebSize && 0 < bytesLeft
    requires len == if offset + bytesLeft > lebSize then lebSize - offset else bytesLeft
    ensures AdvancingCalls(Plan(leb, offset, bytesLeft, lebSize), dest)
         == [ReadCall(leb, dest, offset, len)] + AdvancingCalls(Plan(leb + 1, 0, bytesLeft - len, lebSize), dest + len)
  {
  }

  /** Whatever prefix of a plan's same-buffer calls was issued reads inside single LEBs into `buffer`. */
  lemma IssuedSameBuffer(leb: int, offset: int, bytesLeft: int, lebSize: int, buffer: int, issued: seq<ReadCall>)
    requires 0 <= offset < lebSize && 0 <= bytesLeft
    requires var calls := SameBufferCalls(Plan(leb, offset, bytesLeft, lebSize), buffer);
      |issued| <= |calls| && issued == calls[..|issued|]
    ensures CallsInsideLeb(issued, lebSize)
    ensures forall i :: 0 <= i < |issued| ==> issued[i].dest == buffer
  {
    var plan := Plan(leb, offset, bytesLeft, lebSize);
    PlanWithinLeb(leb, offset, bytesLeft, lebSize);
    SameBufferCallsFollowPlan(plan, buffer);
    PrefixInsideLeb(issued, SameBufferCalls(plan, buffer), plan, lebSize);
    assert forall i :: 0 <= i < |issued| ==> issued[i] == SameBufferCalls(plan, buffer)[i];
  }

  /** Whatever prefix of a plan's advancing calls was issued reads inside single LEBs. */
  lemma IssuedAdvancing(leb: int, offset: int, bytesLeft: int, lebSize: int, buffer: int, issued: seq<ReadCall>)
    requires 0 <= offset < lebSize && 0 <= bytesLeft
    requires var calls := AdvancingCalls(Plan(leb, offset, bytesLeft, lebSize), buffer);
      |issued| <= |calls| && issued == calls[..|issued|]
    ensures CallsInsideLeb(issued, lebSize)
  {
    var plan := Plan(leb, offset, bytesLeft, lebSize);
    PlanWithinLeb(leb, offset, bytesLeft, lebSize);
    AdvancingCallsFollowPlan(plan, buffer);
    PrefixInsideLeb(issued, AdvancingCalls(plan, buffer), plan, lebSize);
  }

  // ---------------------------------------------------------------------
  // The split loop
  // ---------------------------------------------------------------------

  /**
   * The split loop of ubiblock_read as written, from LEB `leb`, byte `offset`,
   * with `bytesLeft` bytes to go, followed by the final return: `done` once
   * every chunk of the plan has been read, or the first negative `ubi_read`
   * result, after which no further call is issued.  Every call is given the
   * same `buffer`.
   */
  method ReadChunks(leb: int, offset: int, bytesLeft: int, lebSize: int, buffer: int, ubiRead: UbiRead, done: int)
    returns (ret: int, ghost issued: seq<ReadCall>)
    requires 0 <= offset < lebSize && 0 <= bytesLeft && 0 <= done
    ensures var calls := SameBufferCalls(Plan(leb, offset, bytesLeft, lebSize), buffer);
      |issued| <= |calls| && issued == calls[..|issued|]
    ensures forall i :: 0 <= i < |issued| - 1 ==> ReadResult(ubiRead, issued[i]) >= 0
    ensures ret < 0 ==> issued != [] && ret == ReadResult(ubiRead, issued[|issued| - 1])
    ensures ret >= 0 ==>
      && ret == done
      && issued == SameBufferCalls(Plan(leb, offset, bytesLeft, lebSize), buffer)
      && forall i :: 0 <= i < |issued| ==> ReadResult(ubiRead, issued[i]) >= 0
    ensures bytesLeft == 0 ==> ret == done && issued == []
    ensures ret == Outcome(ubiRead, SameBufferCalls(Plan(leb, offset, bytesLeft, lebSize), buffer), done)
  {
    var leb, offset, bytesLeft := leb, offset, bytesLeft;
    var toRead := bytesLeft;
    issued := [];
    ghost var calls := SameBufferCalls(Plan(leb, offset, bytesLeft, lebSize), buffer);
    ghost var pending := calls;
    while bytesLeft != 0
      invariant 0 <= offset < lebSize && 0 <= bytesLeft && toRead == bytesLeft
      invariant pending == SameBufferCalls(Plan(leb, offset, bytesLeft, lebSize), buffer)
      invariant issued + pending == calls
      invariant forall i :: 0 <= i < |issued| ==> ReadResult(ubiRead, issued[i]) >= 0
      decreases bytesLeft
    {
      if offset + toRead > lebSize {
        toRead := lebSize - offset;
      }
      ghost var call := ReadCall(leb, buffer, offset, toRead);
      SameBufferStep(leb, offset, bytesLeft, lebSize, buffer, toRead);
      ghost var next := SameBufferCalls(Plan(leb + 1, 0, bytesLeft - toRead, lebSize), buffer);
      var r := ubiRead(leb, offset, toRead);
      IssueNext(issued, call, next, calls);
      issued := issued + [call];
      if r < 0 {
        OutcomeOfFailedRun(ubiRead, calls, issued, done);
        return r, issued;
      }
      pending := next;
      bytesLeft := bytesLeft - toRead;
      toRead := bytesLeft;
      leb := leb + 1;
      offset := 0;
    }
    assert issued == calls;
    OutcomeMeaning(ubiRead, calls, done);
    return done, issued;
  }

  /**
   * ubiblock_read as written: the request's starting LEB and offset, then
   * the split loop; blkcnt once every chunk has been read, or the first
   * negative `ubi_read` result.
   */
  method Read(lebSize: int, blksz: int, start: int, blkcnt: int, buffer: int, ubiRead: UbiRead)
    returns (ret: int, ghost issued: seq<ReadCall>)
    requires ReadInRange(lebSize, blksz, start, blkcnt)
    ensures var calls := SameBufferCalls(RequestPlan(lebSize, blksz, start, blkcnt), buffer);
      |issued| <= |calls| && issued == calls[..|issued|]
    ensures forall i :: 0 <= i < |issued| - 1 ==> ReadResult(ubiRead, issued[i]) >= 0
    ensures ret < 0 ==> issued != [] && ret == ReadResult(ubiRead, issued[|issued| - 1])
    ensures ret >= 0 ==>
      && ret == blkcnt
      && issued == SameBufferCalls(RequestPlan(lebSize, blksz, start, blkcnt), buffer)
      && forall i :: 0 <= i < |issued| ==> ReadResult(ubiRead, issued[i]) >= 0
    ensures CallsInsideLeb(issued, lebSize)
    ensures blkcnt == 0 ==> ret == 0 && issued == []
    ensures forall i :: 0 <= i < |issued| ==> issued[i].dest == buffer
    ensures ret == Outcome(ubiRead, SameBufferCalls(RequestPlan(lebSize, blksz, start, blkcnt), buffer), blkcnt)
  {
    var toRead := blkcnt * blksz;
    var pos := start * blksz;
    var offset := pos % lebSize;
    var leb := pos / lebSize;
    ret, issued := ReadChunks(leb, offset, toRead, lebSize, buffer, ubiRead, blkcnt);
    ghost var plan := Plan(leb, offset, toRead, lebSize);
    assert plan == RequestPlan(lebSize, blksz, start, blkcnt);
    IssuedSameBuffer(leb, offset, toRead, lebSize, buffer, issued);
  }

  /**
   * The split loop with the destination advanced by each chunk read: the
   * same chunks, the same error handling, each call given the next free
   * byte of the buffer.
   */
  method ReadChunksAdvancing(leb: int, offset: int, bytesLeft: int, lebSize: int, buffer: int, ubiRead: UbiRead, done: int)
    returns (ret: int, ghost issued: seq<ReadCall>)
    requires 0 <= offset < lebSize && 0 <= bytesLeft && 0 <= done
    ensures var calls := AdvancingCalls(Plan(leb, offset, bytesLeft, lebSize), buffer);
      |issued| <= |calls| && issued == calls[..|issued|]
    ensures forall i :: 0 <= i < |issued| - 1 ==> ReadResult(ubiRead, issued[i]) >= 0
    ensures ret < 0 ==> issued != [] && ret == ReadResult(ubiRead, issued[|issued| - 1])
    ensures ret >= 0 ==>
      && ret == done
      && issued == AdvancingCalls(Plan(leb, offset, bytesLeft, lebSize), buffer)
      && forall i :: 0 <= i < |issued| ==> ReadResult(ubiRead, issued[i]) >= 0
    ensures bytesLeft == 0 ==> ret == done && issued == []
    ensures ret == Outcome(ubiRead, AdvancingCalls(Plan(leb, offset, bytesLeft, lebSize), buffer), done)
  {
    var leb, offset, bytesLeft := leb, offset, bytesLeft;
    var toRead := bytesLeft;
    var dest := buffer;
    issued := [];
    ghost var calls := AdvancingCalls(Plan(leb, offset, bytesLeft, lebSize), buffer);
    ghost var pending := calls;
    while bytesLeft != 0
      invariant 0 <= offset < lebSize && 0 <= bytesLeft && toRead == bytesLeft
      invariant pending == AdvancingCalls(Plan(leb, offset, bytesLeft, lebSize), dest)
      invariant issued + pending == calls
      invariant forall i :: 0 <= i < |issued| ==> ReadResult(ubiRead, issued[i]) >= 0
      decreases bytesLeft
    {
      if offset + toRead > lebSize {
        toRead := lebSize - offset;
      }
      ghost var call := ReadCall(leb, dest, offset, toRead);
      AdvancingStep(leb, offset, bytesLeft, lebSize, dest, toRead);
      ghost var next := AdvancingCalls(Plan(leb + 1, 0, bytesLeft - toRead, lebSize), dest + toRead);
      var r := ubiRead(leb, offset, toRead);
      IssueNext(issued, call, next, calls);
      issued := issued + [call];
      if r < 0 {
        OutcomeOfFailedRun(ubiRead, calls, issued, done);
        return r, issued;
      }
      pending := next;
      bytesLeft := bytesLeft - toRead;
      dest := dest + toRead;
      toRead := bytesLeft;
      leb := leb + 1;
      offset := 0;
    }
    assert issued == calls;
    OutcomeMeaning(ubiRead, calls, done);
    return done, issued;
  }

  /** ubiblock_read with the advancing split loop. */
  method ReadAdvancing(lebSize: int, blksz: int, start: int, blkcnt: int, buffer: int, ubiRead: UbiRead)
    returns (ret: int, ghost issued: seq<ReadCall>)
    requires ReadInRange(lebSize, blksz, start, blkcnt)
    ensures var calls := AdvancingCalls(RequestPlan(lebSize, blksz, start, blkcnt), buffer);
      |issued| <= |calls| && issued == calls[..|issued|]
    ensures forall i :: 0 <= i < |issued| - 1 ==> ReadResult(ubiRead, issued[i]) >= 0
    ensures ret < 0 ==> issued != [] && ret == ReadResult(ubiRead, issued[|issued| - 1])
    ensures ret >= 0 ==>
      && ret == blkcnt
      && issued == AdvancingCalls(RequestPlan(lebSize, blksz, start, blkcnt), buffer)
      && forall i :: 0 <= i < |issued| ==> ReadResult(ubiRead, issued[i]) >= 0
    ensures CallsInsideLeb(issued, lebSize)
    ensures blkcnt == 0 ==> ret == 0 && issued == []
    ensures ret == Outcome(ubiRead, AdvancingCalls(RequestPlan(lebSize, blksz, start, blkcnt), buffer), blkcnt)
  {
    var toRead := blkcnt * blksz;
    var pos := start * blksz;
    var offset := pos % lebSize;
    var leb := pos / lebSize;
    ret, issued := ReadChunksAdvancing(leb, offset, toRead, lebSize, buffer, ubiRead, blkcnt);
    ghost var plan := Plan(leb, offset, toRead, lebSize);
    assert plan == RequestPlan(lebSize, blksz, start, blkcnt);
    IssuedAdvancing(leb, offset, toRead, lebSize, buffer, issued);
  }

  // ---------------------------------------------------------------------
  // Where the bytes land
  // ---------------------------------------------------------------------

  /**
   * With advancing destinations the buffer ends up holding the flat slice:
   * address dest + k holds volume byte leb*lebSize + offset + k for every k
   * below bytesLeft, and nothing outside that range is written.
   */
  lemma {:induction false} AdvancingLandsFlat(leb: int, offset: int, bytesLeft: int, lebSize: int, dest: int, a: int)
    requires 0 <= offset < lebSize && 0 <= bytesLeft
    decreases bytesLeft
    ensures Landed(AdvancingCalls(Plan(leb, offset, bytesLeft, lebSize), dest), lebSize, a)
         == if dest <= a < dest + bytesLeft then Some(leb * lebSize + offset + (a - dest)) else None
  {
    if bytesLeft > 0 {
      var plan := Plan(leb, offset, bytesLeft, lebSize);
      var len := plan[0].len;
      var calls := AdvancingCalls(plan, dest);
      assert calls[1..] == AdvancingCalls(Plan(leb + 1, 0, bytesLeft - len, lebSize), dest + len);
      AdvancingLandsFlat(leb + 1, 0, bytesLeft - len, lebSize, dest + len, a);
      assert (leb + 1) * lebSize == leb * lebSize + lebSize;
    }
  }

  /** A whole request read with advancing destinations fills the buffer with the flat slice. */
  lemma AdvancingRequestFillsBuffer(lebSize: int, blksz: int, start: int, blkcnt: int, buffer: int, k: int)
    requires ReadInRange(lebSize, blksz, start, blkcnt)
    ensures var calls := AdvancingCalls(RequestPlan(lebSize, blksz, start, blkcnt), buffer);
      Landed(calls, lebSize, buffer + k)
        == if 0 <= k < blkcnt * blksz then Some(start * blksz + k) else None
  {
    var pos, total := start * blksz, blkcnt * blksz;
    var leb, offset := pos / lebSize, pos % lebSize;
    assert leb * lebSize + offset == pos;
    AdvancingLandsFlat(leb, offset, total, lebSize, buffer, buffer + k);
  }

  /**
   * block.c as written, on a request of two whole LEBs (LEB size and block
   * size 128 KiB, blocks 0 and 1): two calls, both to `buffer`, so the buffer
   * starts with the second LEB and its second half is never written.
   */
  lemma SameBufferTwoLebRead(buffer: int)
    ensures var plan := RequestPlan(0x20000, 0x20000, 0, 2);
      && plan == [Chunk(0, 0, 0x20000), Chunk(1, 0, 0x20000)]
      && SameBufferCalls(plan, buffer) == [ReadCall(0, buffer, 0, 0x20000), ReadCall(1, buffer, 0, 0x20000)]
      && Landed(SameBufferCalls(plan, buffer), 0x20000, buffer) == Some(0x20000)
      && Landed(SameBufferCalls(plan, buffer), 0x20000, buffer + 0x20000) == None
  {
    var plan := RequestPlan(0x20000, 0x20000, 0, 2);
    assert plan == [Chunk(0, 0, 0x20000)] + Plan(1, 0, 0x20000, 0x20000);
    assert Plan(1, 0, 0x20000, 0x20000) == [Chunk(1, 0, 0x20000)] + Plan(2, 0, 0, 0x20000);
    var calls := SameBufferCalls(plan, buffer);
    assert calls == [ReadCall(0, buffer, 0, 0x20000)] + SameBufferCalls(plan[1..], buffer);
    assert plan[1..] == [Chunk(1, 0, 0x20000)];
    assert SameBufferCalls(plan[1..], buffer) == [ReadCall(1, buffer, 0, 0x20000)] + SameBufferCalls([], buffer);
    assert calls[1..] == [ReadCall(1, buffer, 0, 0x20000)];
    assert calls[1..][1..] == [];
    assert Landed(calls[1..], 0x20000, buffer) == Some(0x20000);
    assert Landed(calls[1..], 0x20000, buffer + 0x20000) == None;
  }

  /**
   * A read of 128 KiB that starts 64 KiB into LEB 3 (LEB size 128 KiB,
   * block size 4 KiB) is split into two reads: the rest of LEB 3, then the
   * start of LEB 4.
   */
  lemma SplitAcrossTwoLebs()
    ensures RequestPlan(0x20000, 0x1000, 112, 32) == [Chunk(3, 0x10000, 0x10000), Chunk(4, 0, 0x10000)]
  {
    assert RequestPlan(0x20000, 0x1000, 112, 32) == Plan(3, 0x10000, 0x20000, 0x20000);
    assert Plan(3, 0x10000, 0x20000, 0x20000) == [Chunk(3, 0x10000, 0x10000)] + Plan(4, 0, 0x10000, 0x20000);
    assert Plan(4, 0, 0x10000, 0x20000) == [Chunk(4, 0, 0x10000)] + Plan(5, 0, 0, 0x20000);
  }

  /**
   * `pos` on a build whose `lbaint_t` is 32 bits wide: `start * blksz` is
   * formed in `lbaint_t` and only then stored into the u64, so it is the
   * product modulo 2^32.  The rest of the model reads `pos` as the full
   * product, which is what a 64-bit `lbaint_t` gives.
   */
  function NarrowPos(start: int, blksz: int): (pos: int)
    requires 0 <= start && 0 <= blksz
    ensures 0 <= pos < LBA32_LIMIT
    ensures start * blksz < LBA32_LIMIT ==> pos == start * blksz
    ensures (start * blksz - pos) % LBA32_LIMIT == 0
  {
    (start * blksz) % LBA32_LIMIT
  }

  /**
   * With a 32-bit `lbaint_t`, a request for the block at byte 4 GiB wraps:
   * one 128 KiB block at block 32768 of a volume with 128 KiB LEBs is read
   * from LEB 0, where the full product places it at LEB 32768.
   */
  lemma NarrowPosWrapsToLebZero()
    ensures ReadInRange(0x20000, 0x20000, 0x8000, 1)
    ensures NarrowPos(0x8000, 0x20000) == 0
    ensures Plan(NarrowPos(0x8000, 0x20000) / 0x20000, NarrowPos(0x8000, 0x20000) % 0x20000, 0x20000, 0x20000)
         == [Chunk(0, 0, 0x20000)]
    ensures RequestPlan(0x20000, 0x20000, 0x8000, 1) == [Chunk(0x8000, 0, 0x20000)]
  {
    assert 0x8000 * 0x20000 == LBA32_LIMIT;
    assert Plan(0, 0, 0x20000, 0x20000) == [Chunk(0, 0, 0x20000)] + Plan(1, 0, 0, 0x20000);
    assert RequestPlan(0x20000, 0x20000, 0x8000, 1) == Plan(0x8000, 0, 0x20000, 0x20000);
    assert Plan(0x8000, 0, 0x20000, 0x20000) == [Chunk(0x8000, 0, 0x20000)] + Plan(0x8001, 0, 0, 0x20000);
  }
}
