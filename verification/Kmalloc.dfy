/**
 * The kernel heap: a list of block headers in address order.  Growth is taken to succeed and to be
 * contiguous, so the list tiles the heap.
 */
module KernelHeap {

  const HEADER_SIZE: nat := 32
  const PAGE_SIZE: nat := 4096
  const NULL: nat := 0

  /** The ranges of `uint32_t` and `size_t`. */
  const WRAP32: nat := 0x1_0000_0000
  const WRAP64: nat := 0x1_0000_0000_0000_0000

  /** For an aligned request of up to this many bytes no sum wraps on the way to the page count. */
  const SIZE_LIMIT: nat := WRAP64 - HEADER_SIZE - PAGE_SIZE

  /** Up to this many, the growth in bytes does not wrap either. */
  const MAX_REQUEST: nat := 0xFFFF_EFE0

  ghost predicate Aligned(a: int) {
    a % 16 == 0
  }

  function Align16(x: nat): (r: nat)
    ensures x <= r < x + 16 && Aligned(r)
  {
    (x + 15) / 16 * 16
  }

  lemma AlignAgain(x: nat)
    ensures Align16(Align16(x)) == Align16(x)
  {
  }

  lemma AlignedSum(a: int, b: int)
    requires Aligned(a) && Aligned(b)
    ensures Aligned(a + b) && Aligned(a - b) && Aligned(a + HEADER_SIZE)
  {
  }

  /** A header in memory. */
  datatype Header = Header(size: nat, free: bool, next: nat)

  /** A block of the list: its header's address, its payload's size. */
  datatype Block = Block(addr: nat, size: nat, free: bool)

  function End(b: Block): nat {
    b.addr + HEADER_SIZE + b.size
  }

  ghost predicate BlockOk(b: Block) {
    0 < b.addr && Aligned(b.addr) && 0 < b.size && Aligned(b.size)
  }

  /** Each block begins where the one before ends. */
  ghost predicate Tiled(blocks: seq<Block>) {
    && (forall k | 0 <= k < |blocks| :: BlockOk(blocks[k]))
    && (forall k | 0 < k < |blocks| :: Follows(blocks[k - 1], blocks[k]))
  }

  ghost predicate Follows(a: Block, b: Block) {
    b.addr == End(a)
  }

  /** No two neighbours are both free. */
  ghost predicate Coalesced(blocks: seq<Block>) {
    forall k | 0 < k < |blocks| :: Apart(blocks[k - 1], blocks[k])
  }

  ghost predicate Apart(a: Block, b: Block) {
    !(a.free && b.free)
  }

  function NextAddr(blocks: seq<Block>, k: nat): nat {
    if k + 1 < |blocks| then blocks[k + 1].addr else NULL
  }

  /** The headers in memory are those of the list. */
  ghost predicate Linked(headers: map<nat, Header>, blocks: seq<Block>) {
    forall k | 0 <= k < |blocks| :: HeaderAt(headers, blocks, k)
  }

  ghost predicate HeaderAt(headers: map<nat, Header>, blocks: seq<Block>, k: nat)
    requires k < |blocks|
  {
    blocks[k].addr in headers && headers[blocks[k].addr] == Header(blocks[k].size, blocks[k].free, NextAddr(blocks, k))
  }

  /** The bytes of all headers and payloads, and of the used payloads. */
  ghost function Span(blocks: seq<Block>): nat {
    if blocks == [] then 0 else Span(blocks[..|blocks| - 1]) + HEADER_SIZE + blocks[|blocks| - 1].size
  }

  ghost function UsedBytes(blocks: seq<Block>): nat {
    if blocks == [] then 0
    else UsedBytes(blocks[..|blocks| - 1]) + (if blocks[|blocks| - 1].free then 0 else blocks[|blocks| - 1].size)
  }

  lemma {:induction false} SumsAppend(a: seq<Block>, b: seq<Block>)
    ensures Span(a + b) == Span(a) + Span(b) && UsedBytes(a + b) == UsedBytes(a) + UsedBytes(b)
  {
    if b == [] {
      assert a + b == a;
    } else {
      SumsAppend(a, b[..|b| - 1]);
      assert (a + b)[..|a + b| - 1] == a + b[..|b| - 1];
    }
  }

  lemma SumsOne(b: Block)
    ensures Span([b]) == HEADER_SIZE + b.size && UsedBytes([b]) == if b.free then 0 else b.size
  {
    assert [b][..0] == [];
  }

  /** Earlier blocks end before later ones begin. */
  lemma {:induction false} Ordered(blocks: seq<Block>, i: nat, j: nat)
    requires Tiled(blocks) && i < j < |blocks|
    ensures End(blocks[i]) <= blocks[j].addr
    decreases j
  {
    assert Follows(blocks[j - 1], blocks[j]);
    if i < j - 1 {
      Ordered(blocks, i, j - 1);
    }
  }

  lemma {:induction false} SpanIsExtent(blocks: seq<Block>)
    requires Tiled(blocks) && blocks != []
    ensures blocks[0].addr + Span(blocks) == End(blocks[|blocks| - 1])
  {
    var n := |blocks|;
    if n == 1 {
      SumsOne(blocks[0]);
      assert blocks == [blocks[0]];
    } else {
      SpanIsExtent(blocks[..n - 1]);
      assert Follows(blocks[n - 2], blocks[n - 1]);
    }
  }

  /** Live payloads: aligned, inside the heap, and apart from each other and from every header. */
  lemma LivePayloads(blocks: seq<Block>, i: nat)
    requires Tiled(blocks) && i < |blocks|
    ensures Aligned(blocks[i].addr + HEADER_SIZE)
    ensures blocks[0].addr < blocks[i].addr + HEADER_SIZE && End(blocks[i]) <= blocks[0].addr + Span(blocks)
    ensures forall j | 0 <= j < |blocks| && j != i ::
      End(blocks[i]) <= blocks[j].addr || End(blocks[j]) <= blocks[i].addr
  {
    AlignedSum(blocks[i].addr, blocks[i].size);
    SpanIsExtent(blocks);
    if i > 0 {
      Ordered(blocks, 0, i);
    }
    if i < |blocks| - 1 {
      Ordered(blocks, i, |blocks| - 1);
    }
    forall j | 0 <= j < |blocks| && j != i
      ensures End(blocks[i]) <= blocks[j].addr || End(blocks[j]) <= blocks[i].addr
    {
      if i < j {
        Ordered(blocks, i, j);
      } else {
        Ordered(blocks, j, i);
      }
    }
  }

  /** The blocks callers hold. */
  ghost function Live(blocks: seq<Block>): set<Block> {
    set b | b in blocks && !b.free
  }

  /** When nothing is live, one free block is the whole heap, and what was handed out has all come back. */
  lemma AllFreed(blocks: seq<Block>)
    requires Coalesced(blocks) && blocks != [] && Live(blocks) == {}
    ensures |blocks| == 1 && blocks[0].free && HEADER_SIZE + blocks[0].size == Span(blocks) && UsedBytes(blocks) == 0
  {
    forall k | 0 <= k < |blocks|
      ensures blocks[k].free
    {
      assert blocks[k] in Live(blocks) <==> !blocks[k].free;
    }
    assert |blocks| == 1 || Apart(blocks[0], blocks[1]);
    assert blocks == [blocks[0]];
    SumsOne(blocks[0]);
  }

  ghost predicate Fits(blocks: seq<Block>, size: nat) {
    exists k | 0 <= k < |blocks| :: blocks[k].free && size <= blocks[k].size
  }

  /** `middle` replaces `n` blocks from `k`. */
  ghost function Spliced(blocks: seq<Block>, k: nat, n: nat, middle: seq<Block>): seq<Block>
    requires k + n <= |blocks|
  {
    blocks[..k] + middle + blocks[k + n..]
  }

  /** A piece of the list may be replaced by one that covers the same addresses. */
  lemma SplicedTiles(blocks: seq<Block>, k: nat, n: nat, middle: seq<Block>)
    requires Tiled(blocks) && k + n <= |blocks| && 0 < n && Tiled(middle) && middle != []
    requires middle[0].addr == blocks[k].addr
    requires k + n == |blocks| || End(middle[|middle| - 1]) == End(blocks[k + n - 1])
    ensures Tiled(Spliced(blocks, k, n, middle))
  {
    var r := Spliced(blocks, k, n, middle);
    forall i | 0 < i < |r|
      ensures Follows(r[i - 1], r[i])
    {
      SplicedFollows(blocks, k, n, middle, i);
    }
    forall i | 0 <= i < |r|
      ensures BlockOk(r[i])
    {
      assert r[i] == if i < k then blocks[i] else if i < k + |middle| then middle[i - k] else blocks[i - |middle| + n];
    }
  }

  lemma SplicedFollows(blocks: seq<Block>, k: nat, n: nat, middle: seq<Block>, i: nat)
    requires Tiled(blocks) && k + n <= |blocks| && 0 < n && Tiled(middle) && middle != []
    requires middle[0].addr == blocks[k].addr
    requires k + n == |blocks| || End(middle[|middle| - 1]) == End(blocks[k + n - 1])
    requires 0 < i < |Spliced(blocks, k, n, middle)|
    ensures Follows(Spliced(blocks, k, n, middle)[i - 1], Spliced(blocks, k, n, middle)[i])
  {
    hide BlockOk;
    var m := |middle|;
    if i <= k {
      assert Follows(blocks[i - 1], blocks[i]);
    } else if i < k + m {
      assert Follows(middle[i - k - 1], middle[i - k]);
    } else {
      assert Follows(blocks[i - m + n - 1], blocks[i - m + n]);
    }
  }

  lemma SumsThree(a: seq<Block>, b: seq<Block>, c: seq<Block>)
    ensures Span(a + b + c) == Span(a) + Span(b) + Span(c)
    ensures UsedBytes(a + b + c) == UsedBytes(a) + UsedBytes(b) + UsedBytes(c)
  {
    hide Span, UsedBytes;
    SumsAppend(a + b, c);
    SumsAppend(a, b);
  }

  lemma SplicedSums(blocks: seq<Block>, k: nat, n: nat, middle: seq<Block>)
    requires k + n <= |blocks|
    ensures Span(Spliced(blocks, k, n, middle)) == Span(blocks) - Span(blocks[k..k + n]) + Span(middle)
    ensures UsedBytes(Spliced(blocks, k, n, middle)) == UsedBytes(blocks) - UsedBytes(blocks[k..k + n]) +
      UsedBytes(middle)
  {
    hide Span, UsedBytes;
    SumsThree(blocks[..k], middle, blocks[k + n..]);
    SumsThree(blocks[..k], blocks[k..k + n], blocks[k + n..]);
    assert blocks == blocks[..k] + blocks[k..k + n] + blocks[k + n..];
  }

  /** The live blocks change by those of the piece. */
  lemma SplicedLive(blocks: seq<Block>, k: nat, n: nat, middle: seq<Block>)
    requires Tiled(blocks) && k + n <= |blocks|
    ensures Live(Spliced(blocks, k, n, middle)) == Live(blocks) - Live(blocks[k..k + n]) + Live(middle)
  {
    forall i, j | 0 <= i < |blocks| && k <= j < k + n && !(k <= i < k + n)
      ensures blocks[i] != blocks[j]
    {
      if i < j {
        Ordered(blocks, i, j);
      } else {
        Ordered(blocks, j, i);
      }
    }
    var r := Spliced(blocks, k, n, middle);
    forall j | k <= j < k + n
      ensures blocks[j] in blocks[k..k + n]
    {
      assert blocks[k..k + n][j - k] == blocks[j];
    }
    forall b | b in Live(blocks) - Live(blocks[k..k + n])
      ensures b in r
    {
      var i :| 0 <= i < |blocks| && blocks[i] == b;
      assert i < k ==> r[i] == b;
      assert i >= k + n ==> r[i - n + |middle|] == b;
    }
    forall b | b in Live(middle)
      ensures b in r
    {
      var i :| 0 <= i < |middle| && middle[i] == b;
      assert r[k + i] == b;
    }
  }

  /** Pairs wholly before or after the piece stay as they are. */
  lemma SplicedApart(blocks: seq<Block>, k: nat, n: nat, middle: seq<Block>, bad: nat)
    requires k + n <= |blocks| && middle != [] && Coalesced(middle)
    requires forall i | 0 < i < k || k + n < i < |blocks| :: Apart(blocks[i - 1], blocks[i])
    requires k > 0 && bad != k ==> Apart(blocks[k - 1], middle[0])
    requires k + n < |blocks| ==> Apart(middle[|middle| - 1], blocks[k + n])
    ensures forall i | 0 < i < |Spliced(blocks, k, n, middle)| && (i != k || bad != k) ::
      Apart(Spliced(blocks, k, n, middle)[i - 1], Spliced(blocks, k, n, middle)[i])
  {
    var r, m := Spliced(blocks, k, n, middle), |middle|;
    forall i | 0 < i < |r| && (i != k || bad != k)
      ensures Apart(r[i - 1], r[i])
    {
      if i < k {
        assert Apart(blocks[i - 1], blocks[i]);
      } else if k < i < k + m {
        assert Apart(middle[i - k - 1], middle[i - k]);
      } else if i > k + m {
        assert Apart(blocks[i - m + n - 1], blocks[i - m + n]);
      }
    }
  }

  /** What memory must hold for one block of a piece that is followed by address `after`. */
  ghost predicate PieceAt(headers: map<nat, Header>, piece: seq<Block>, i: nat, after: nat)
    requires i < |piece|
  {
    && piece[i].addr in headers
    && headers[piece[i].addr] == Header(piece[i].size, piece[i].free, if i + 1 < |piece| then piece[i + 1].addr
       else after)
  }

  ghost predicate PieceLinked(headers: map<nat, Header>, piece: seq<Block>, after: nat) {
    forall i | 0 <= i < |piece| :: PieceAt(headers, piece, i, after)
  }

  ghost predicate SameHeader(headers: map<nat, Header>, headers': map<nat, Header>, addr: nat) {
    addr in headers ==> addr in headers' && headers'[addr] == headers[addr]
  }

  lemma SplicedLinked(headers: map<nat, Header>, headers': map<nat, Header>, blocks: seq<Block>, k: nat, n: nat,
                      middle: seq<Block>)
    requires Linked(headers, blocks) && k + n <= |blocks| && 0 < n && middle != [] && middle[0].addr == blocks[k].addr
    requires PieceLinked(headers', middle, NextAddr(blocks, k + n - 1))
    requires forall i | 0 <= i < k || k + n <= i < |blocks| :: SameHeader(headers, headers', blocks[i].addr)
    ensures Linked(headers', Spliced(blocks, k, n, middle))
  {
    var r, m := Spliced(blocks, k, n, middle), |middle|;
    forall i | 0 <= i < |r|
      ensures HeaderAt(headers', r, i)
    {
      if i < k {
        assert HeaderAt(headers, blocks, i) && SameHeader(headers, headers', blocks[i].addr);
      } else if i < k + m {
        assert PieceAt(headers', middle, i - k, NextAddr(blocks, k + n - 1));
      } else {
        assert HeaderAt(headers, blocks, i - m + n) && SameHeader(headers, headers', blocks[i - m + n].addr);
      }
    }
  }

  /**
   * A free block after `size` bytes are taken from it; what is left is a block only if it has room for a
   * header and 16 bytes.
   */
  function Cut(b: Block, size: nat): (r: seq<Block>)
    ensures r != []
  {
    if b.size >= size + HEADER_SIZE + 16 then
      [Block(b.addr, size, false), Block(b.addr + HEADER_SIZE + size, b.size - size - HEADER_SIZE, true)]
    else [b.(free := false)]
  }

  lemma CutOk(b: Block, size: nat)
    requires BlockOk(b) && Aligned(size) && 0 < size <= b.size
    ensures Tiled(Cut(b, size)) && Coalesced(Cut(b, size))
    ensures Cut(b, size)[0].addr == b.addr && End(Cut(b, size)[|Cut(b, size)| - 1]) == End(b)
    ensures Span(Cut(b, size)) == Span([b]) && UsedBytes(Cut(b, size)) == Cut(b, size)[0].size
    ensures !Cut(b, size)[0].free && size <= Cut(b, size)[0].size < size + HEADER_SIZE + 16
    ensures Live(Cut(b, size)) == {Cut(b, size)[0]}
  {
    AlignedSum(b.addr, size);
    AlignedSum(b.addr + HEADER_SIZE, size);
    AlignedSum(b.size, size);
    AlignedSum(b.size - size, HEADER_SIZE);
    var cut := Cut(b, size);
    SumsOne(b);
    SumsOne(cut[0]);
    if |cut| == 2 {
      SumsAppend([cut[0]], [cut[1]]);
      SumsOne(cut[1]);
      assert cut == [cut[0]] + [cut[1]];
      assert Follows(cut[0], cut[1]);
    } else {
      assert cut == [cut[0]];
    }
  }

  /** The list after a block of it is handed out. */
  lemma CutTable(blocks: seq<Block>, k: nat, size: nat)
    requires Tiled(blocks) && Coalesced(blocks) && k < |blocks| && blocks[k].free && Aligned(size)
    requires 0 < size <= blocks[k].size
    ensures
      var r, b := Spliced(blocks, k, 1, Cut(blocks[k], size)), Cut(blocks[k], size)[0];
      && Tiled(r) && Coalesced(r) && Span(r) == Span(blocks) && UsedBytes(r) == UsedBytes(blocks) + b.size
      && b !in blocks && Live(r) == Live(blocks) + {b}
      && b.addr == blocks[k].addr && size <= b.size < size + HEADER_SIZE + 16
      && End(r[|r| - 1]) == End(blocks[|blocks| - 1])
  {
    hide Span, UsedBytes, Cut, Live, Tiled;
    var cut := Cut(blocks[k], size);
    OneBlock(blocks, k);
    CutOk(blocks[k], size);
    SplicedTiles(blocks, k, 1, cut);
    SplicedSums(blocks, k, 1, cut);
    SplicedLive(blocks, k, 1, cut);
    assert k + 1 < |blocks| ==> Apart(blocks[k], blocks[k + 1]);
    SplicedApart(blocks, k, 1, cut, k + 1);
    NotThere(blocks, k, cut[0]);
  }

  /** One free block counts for nothing. */
  lemma OneBlock(blocks: seq<Block>, k: nat)
    requires Tiled(blocks) && k < |blocks|
    ensures BlockOk(blocks[k]) && blocks[k..k + 1] == [blocks[k]]
    ensures UsedBytes([blocks[k]]) == (if blocks[k].free then 0 else blocks[k].size) &&
      Live([blocks[k]]) == (if blocks[k].free then {} else {blocks[k]})
    ensures Span([blocks[k]]) == HEADER_SIZE + blocks[k].size
  {
    SumsOne(blocks[k]);
  }

  lemma NotThere(blocks: seq<Block>, k: nat, b: Block)
    requires Tiled(blocks) && k < |blocks| && b.addr == blocks[k].addr && b.free != blocks[k].free
    ensures b !in blocks
  {
    forall i | 0 <= i < |blocks|
      ensures blocks[i] != b
    {
      if i < k {
        Ordered(blocks, i, k);
      } else if k < i {
        Ordered(blocks, k, i);
      }
    }
  }

  /** Block `k` freed, neighbours as they are. */
  lemma FreedTable(blocks: seq<Block>, k: nat)
    requires Tiled(blocks) && Coalesced(blocks) && k < |blocks| && !blocks[k].free
    ensures
      var r := Spliced(blocks, k, 1, [blocks[k].(free := true)]);
      && Tiled(r) && Span(r) == Span(blocks) && UsedBytes(r) == UsedBytes(blocks) - blocks[k].size
      && Live(r) == Live(blocks) - {blocks[k]}
      && End(r[|r| - 1]) == End(blocks[|blocks| - 1])
      && (forall i | 0 < i < |r| && i != k && i != k + 1 :: Apart(r[i - 1], r[i]))
  {
    hide Span, UsedBytes, Live;
    var piece := [blocks[k].(free := true)];
    OneBlock(blocks, k);
    OneBlock(piece, 0);
    assert piece[0..1] == piece;
    SplicedTiles(blocks, k, 1, piece);
    SplicedSums(blocks, k, 1, piece);
    SplicedLive(blocks, k, 1, piece);
    var r := Spliced(blocks, k, 1, piece);
    forall i | 0 < i < |r| && i != k && i != k + 1
      ensures Apart(r[i - 1], r[i])
    {
      assert Apart(blocks[i - 1], blocks[i]);
    }
  }

  function Merged(a: Block, b: Block): Block {
    Block(a.addr, a.size + HEADER_SIZE + b.size, a.free)
  }

  /** Two free neighbours become one block. */
  lemma MergedTable(blocks: seq<Block>, k: nat)
    requires Tiled(blocks) && k + 1 < |blocks| && blocks[k].free && blocks[k + 1].free
    ensures
      var r := Spliced(blocks, k, 2, [Merged(blocks[k], blocks[k + 1])]);
      && Tiled(r) && Span(r) == Span(blocks) && UsedBytes(r) == UsedBytes(blocks) && Live(r) == Live(blocks)
      && End(r[|r| - 1]) == End(blocks[|blocks| - 1])
  {
    hide Span, UsedBytes, Live;
    var piece, two := [Merged(blocks[k], blocks[k + 1])], blocks[k..k + 2];
    OneBlock(blocks, k);
    OneBlock(blocks, k + 1);
    assert Follows(blocks[k], blocks[k + 1]);
    AlignedSum(blocks[k].size, blocks[k + 1].size);
    AlignedSum(blocks[k].size + blocks[k + 1].size, blocks[k].size);
    OneBlock(piece, 0);
    assert piece[0..1] == piece && two == [blocks[k]] + [blocks[k + 1]];
    SumsAppend([blocks[k]], [blocks[k + 1]]);
    TwoFree(two);
    SplicedTiles(blocks, k, 2, piece);
    SplicedSums(blocks, k, 2, piece);
    SplicedLive(blocks, k, 2, piece);
  }

  lemma TwoFree(two: seq<Block>)
    requires |two| == 2 && two[0].free && two[1].free
    ensures Live(two) == {}
  {
  }

  lemma MergedApart(blocks: seq<Block>, k: nat)
    requires k + 1 < |blocks| && blocks[k].free
    requires forall i | 0 < i < |blocks| && i != k && i != k + 1 :: Apart(blocks[i - 1], blocks[i])
    requires k + 2 < |blocks| ==> !blocks[k + 2].free
    ensures
      var r := Spliced(blocks, k, 2, [Merged(blocks[k], blocks[k + 1])]);
      && (forall i | 0 < i < |r| && i != k :: Apart(r[i - 1], r[i]))
      && (k > 0 && Apart(blocks[k - 1], blocks[k]) ==> Apart(r[k - 1], r[k]))
  {
    SplicedApart(blocks, k, 2, [Merged(blocks[k], blocks[k + 1])], k);
  }

  /** The last of the joins leaves no two free neighbours. */
  lemma JoinedApart(blocks: seq<Block>, k: nat)
    requires 0 < k < |blocks| && blocks[k - 1].free && blocks[k].free
    requires forall i | 0 < i < |blocks| && i != k :: Apart(blocks[i - 1], blocks[i])
    ensures Coalesced(Spliced(blocks, k - 1, 2, [Merged(blocks[k - 1], blocks[k])]))
  {
    assert k + 1 < |blocks| ==> Apart(blocks[k], blocks[k + 1]);
    MergedApart(blocks, k - 1);
    assert 1 < k ==> Apart(blocks[k - 2], blocks[k - 1]);
  }

  /** The last block after growth by `bytes` right behind it: if free it is longer, else there is a new one. */
  function Growth(last: Block, bytes: nat): (r: seq<Block>)
    ensures r != []
  {
    if last.free then [last.(size := last.size + bytes)] else [last, Block(End(last), LessHeader(bytes), true)]
  }

  /** `grow_size - HEADER_SIZE` in `size_t`. */
  function LessHeader(bytes: nat): nat {
    if HEADER_SIZE <= bytes then bytes - HEADER_SIZE else bytes + WRAP64 - HEADER_SIZE
  }

  ghost function Grown(blocks: seq<Block>, bytes: nat): seq<Block>
    requires blocks != []
  {
    Spliced(blocks, |blocks| - 1, 1, Growth(blocks[|blocks| - 1], bytes))
  }

  lemma GrowthOk(last: Block, bytes: nat)
    requires BlockOk(last) && Aligned(bytes) && HEADER_SIZE < bytes
    ensures
      var r := Growth(last, bytes);
      && Tiled(r) && Coalesced(r) && r[0].addr == last.addr && r[0].free == last.free && r[|r| - 1].free
      && bytes <= r[|r| - 1].size + HEADER_SIZE
      && Span(r) == Span([last]) + bytes && UsedBytes(r) == UsedBytes([last])
      && Live(r) == (if last.free then {} else {last})
  {
    hide Live;
    AlignedSum(last.size, bytes);
    AlignedSum(bytes, HEADER_SIZE);
    AlignedSum(last.addr, last.size);
    AlignedSum(last.addr + last.size, HEADER_SIZE);
    var r := Growth(last, bytes);
    SumsOne(last);
    SumsOne(r[0]);
    if |r| == 2 {
      SumsOne(r[1]);
      SumsAppend([r[0]], [r[1]]);
      assert r == [r[0]] + [r[1]];
      LastLive(last, r[1]);
    } else {
      NoLive(r[0]);
      assert r == [r[0]];
    }
  }

  lemma GrownTable(blocks: seq<Block>, bytes: nat)
    requires Tiled(blocks) && Coalesced(blocks) && blocks != [] && Aligned(bytes) && HEADER_SIZE < bytes
    ensures
      var r := Grown(blocks, bytes);
      && r != [] && Tiled(r) && Coalesced(r) && Span(r) == Span(blocks) + bytes && UsedBytes(r) == UsedBytes(blocks)
      && Live(r) == Live(blocks)
      && r[0].addr == blocks[0].addr && r[|r| - 1].free && bytes <= r[|r| - 1].size + HEADER_SIZE
  {
    hide Span, UsedBytes, Live, Growth, Tiled, BlockOk;
    var k := |blocks| - 1;
    var piece := Growth(blocks[k], bytes);
    OneBlock(blocks, k);
    GrowthOk(blocks[k], bytes);
    assert k > 0 ==> Apart(blocks[k - 1], blocks[k]);
    SplicedTiles(blocks, k, 1, piece);
    SplicedSums(blocks, k, 1, piece);
    SplicedLive(blocks, k, 1, piece);
    SplicedApart(blocks, k, 1, piece, k + 1);
    LiveBack(blocks, k);
  }

  lemma LastLive(a: Block, b: Block)
    requires !a.free && b.free
    ensures Live([a, b]) == {a}
  {
    assert [a, b][0] == a;
  }

  lemma NoLive(b: Block)
    requires b.free
    ensures Live([b]) == {}
  {
  }

  lemma LiveBack(blocks: seq<Block>, k: nat)
    requires k < |blocks|
    ensures blocks[k].free || Live(blocks) - {blocks[k]} + {blocks[k]} == Live(blocks)
    ensures Live(blocks) - {} + {} == Live(blocks)
  {
  }

  /** The block first fit picks. */
  ghost predicate FirstFit(blocks: seq<Block>, size: nat, k: nat) {
    k < |blocks| && blocks[k].free && size <= blocks[k].size && forall i | 0 <= i < k ::
        !(blocks[i].free && size <= blocks[i].size)
  }

  /** The pages a request that does not fit asks for, as the 32-bit count they are. */
  function PagesFor(size: nat): (r: nat)
    ensures 4 <= r < WRAP32
  {
    var pages := (size + HEADER_SIZE + PAGE_SIZE - 1) / PAGE_SIZE % WRAP32;
    if pages < 4 then 4 else pages
  }

  /** `pages * PAGE_SIZE`, a product of 32 bits. */
  function GrowSize(pages: nat): nat {
    pages * PAGE_SIZE % WRAP32
  }

  lemma GrowSizeWhole(pages: nat)
    ensures Aligned(GrowSize(pages)) && (GrowSize(pages) == 0 || PAGE_SIZE <= GrowSize(pages))
    ensures pages < 0x10_0000 ==> GrowSize(pages) == pages * PAGE_SIZE
  {
    var q := pages * PAGE_SIZE / WRAP32;
    assert GrowSize(pages) == PAGE_SIZE * (pages - q * 0x10_0000);
    Sixteens(256 * (pages - q * 0x10_0000));
  }

  lemma PagesEnough(size: nat)
    requires 0 < size <= MAX_REQUEST
    ensures size + HEADER_SIZE <= GrowSize(PagesFor(size)) && PagesFor(size) < 0x10_0000
  {
    var need := (size + HEADER_SIZE + PAGE_SIZE - 1) / PAGE_SIZE;
    assert need < 0x10_0000;
    assert need % WRAP32 == need;
    GrowSizeWhole(PagesFor(size));
  }

  /** The bytes the last block has after a growth for `need` do for it: a free last block keeps its own. */
  predicate RetryFits(blocks: seq<Block>, need: nat) {
    && blocks != []
    && var last, bytes := blocks[|blocks| - 1], GrowSize(PagesFor(need));
    && 0 < bytes && need <= if last.free then last.size + bytes else bytes - HEADER_SIZE
  }

  /** Below 4 GB they always do. */
  lemma SmallRetries(blocks: seq<Block>, need: nat)
    requires blocks != [] && 0 < need <= MAX_REQUEST
    ensures RetryFits(blocks, need)
  {
    PagesEnough(need);
  }

  /** But a request of 4 GB grows the heap by a single page. */
  lemma FourGigabytes(blocks: seq<Block>)
    requires blocks != [] && !blocks[|blocks| - 1].free
    ensures GrowSize(PagesFor(0x1_0000_0000)) == PAGE_SIZE && !RetryFits(blocks, 0x1_0000_0000)
  {
  }

  lemma Sixteens(x: int)
    ensures Aligned(16 * x)
  {
  }

  ghost predicate Holds(headers: map<nat, Header>, blocks: seq<Block>, start: nat, end: nat) {
    && blocks != [] && Tiled(blocks) && Linked(headers, blocks)
    && start == blocks[0].addr && end == blocks[|blocks| - 1].addr
  }

  lemma HolderAt(headers: map<nat, Header>, blocks: seq<Block>, start: nat, end: nat, k: nat)
    requires Holds(headers, blocks, start, end) && k < |blocks|
    ensures blocks[k].addr in headers
    ensures headers[blocks[k].addr] == Header(blocks[k].size, blocks[k].free, NextAddr(blocks, k))
    ensures 0 < blocks[k].addr && (blocks[k].addr == end <==> k == |blocks| - 1)
    ensures forall i | 0 <= i < k :: blocks[i].addr < blocks[k].addr
    ensures forall i | k < i < |blocks| :: End(blocks[k]) <= blocks[i].addr
  {
    assert HeaderAt(headers, blocks, k) && BlockOk(blocks[k]);
    forall i | 0 <= i < k
      ensures blocks[i].addr < blocks[k].addr
    {
      Ordered(blocks, i, k);
    }
    forall i | k < i < |blocks|
      ensures End(blocks[k]) <= blocks[i].addr
    {
      Ordered(blocks, k, i);
    }
    if k < |blocks| - 1 {
      Ordered(blocks, k, |blocks| - 1);
    }
  }

  /** The memory writes that carry out a splice. */
  lemma HoldsSpliced(headers: map<nat, Header>, headers': map<nat, Header>, blocks: seq<Block>, start: nat, end: nat,
                     k: nat, n: nat, piece: seq<Block>)
    requires Holds(headers, blocks, start, end) && 0 < n && k + n <= |blocks| && piece != []
    requires piece[0].addr == blocks[k].addr
    requires Tiled(Spliced(blocks, k, n, piece)) && PieceLinked(headers', piece, NextAddr(blocks, k + n - 1))
    requires forall i | 0 <= i < k || k + n <= i < |blocks| :: SameHeader(headers, headers', blocks[i].addr)
    ensures Holds(headers', Spliced(blocks, k, n, piece), start,
      if k + n == |blocks| then piece[|piece| - 1].addr else end)
  {
    hide Tiled;
    SplicedLinked(headers, headers', blocks, k, n, piece);
  }

  /** The list the request is met from: the old one, or that grown once if nothing in it fits. */
  ghost predicate Source(before: seq<Block>, need: nat, full: seq<Block>) {
    if Fits(before, need) then full == before else before != [] && full == Grown(before, GrowSize(PagesFor(need)))
  }

  ghost predicate TakenFrom(full: seq<Block>, need: nat, k: nat, after: seq<Block>, r: nat) {
    FirstFit(full, need, k) && after == Spliced(full, k, 1, Cut(full[k], need)) && r == full[k].addr + HEADER_SIZE
  }

  ghost predicate Allocated(before: seq<Block>, after: seq<Block>, need: nat, r: nat) {
    exists full, k :: Source(before, need, full) && TakenFrom(full, need, k, after, r)
  }

  lemma StartAt(headers: map<nat, Header>, blocks: seq<Block>, start: nat, end: nat)
    requires Holds(headers, blocks, start, end)
    ensures blocks != [] && start == blocks[0].addr && forall k | 0 <= k < |blocks| :: blocks[k].addr != NULL
  {
  }

  lemma AddrAt(headers: map<nat, Header>, blocks: seq<Block>, start: nat, end: nat, k: nat)
    requires Holds(headers, blocks, start, end) && k < |blocks|
    ensures blocks[k].addr in headers
    ensures headers[blocks[k].addr] == Header(blocks[k].size, blocks[k].free, NextAddr(blocks, k))
  {
    assert HeaderAt(headers, blocks, k);
  }

  /** A search that came to the end of the list saw every block. */
  lemma NoFit(blocks: seq<Block>, need: nat)
    requires forall i | 0 <= i < |blocks| :: !(blocks[i].free && need <= blocks[i].size)
    ensures !Fits(blocks, need)
  {
  }

  /** What fits after a growth of some bytes, if nothing did before. */
  lemma NowFits(blocks: seq<Block>, bytes: nat, need: nat)
    requires blocks != [] && !Fits(blocks, need)
    ensures
      var last := blocks[|blocks| - 1];
      Fits(Grown(blocks, bytes), need) <==> need <= if last.free then last.size + bytes else LessHeader(bytes)
  {
    var k, r := |blocks| - 1, Grown(blocks, bytes);
    forall i | 0 <= i < k
      ensures r[i] == blocks[i] && !(blocks[i].free && need <= blocks[i].size)
    {
    }
    assert !(blocks[k].free && need <= blocks[k].size);
    assert r[|r| - 1] == Growth(blocks[k], bytes)[|Growth(blocks[k], bytes)| - 1];
  }

  /**
   * For a request of any size that nothing fits: a growth adds its bytes to the heap and makes the request
   * fit, so that the retry is the last, exactly if `RetryFits`.
   */
  lemma RetryExactly(blocks: seq<Block>, need: nat)
    requires Tiled(blocks) && Coalesced(blocks) && blocks != [] && !Fits(blocks, need)
    ensures
      var bytes := GrowSize(PagesFor(need));
      Fits(Grown(blocks, bytes), need) && Span(Grown(blocks, bytes)) == Span(blocks) + bytes <==>
          RetryFits(blocks, need)
  {
    hide Tiled, Coalesced, Fits, Live, GrowSize, PagesFor;
    var bytes, last := GrowSize(PagesFor(need)), blocks[|blocks| - 1];
    GrowSizeWhole(PagesFor(need));
    NowFits(blocks, bytes, need);
    LastTooSmall(blocks, need);
    if 0 < bytes {
      GrownTable(blocks, bytes);
    } else if !last.free {
      WrappedSpan(blocks);
    }
  }

  lemma LastTooSmall(blocks: seq<Block>, need: nat)
    requires blocks != [] && !Fits(blocks, need)
    ensures blocks[|blocks| - 1].free ==> blocks[|blocks| - 1].size < need
  {
  }

  /** A growth by 0 bytes behind a used block enters a header with a wrapped size. */
  lemma WrappedSpan(blocks: seq<Block>)
    requires blocks != [] && !blocks[|blocks| - 1].free
    ensures Span(Grown(blocks, 0)) != Span(blocks)
  {
    var k := |blocks| - 1;
    var piece := Growth(blocks[k], 0);
    SumsOne(blocks[k]);
    SumsOne(piece[1]);
    SumsAppend([piece[0]], [piece[1]]);
    assert piece == [piece[0]] + [piece[1]] && blocks[k..k + 1] == [blocks[k]];
    SplicedSums(blocks, k, 1, piece);
  }

  /** And then the list is whole and the request fits. */
  lemma RetryHolds(headers: map<nat, Header>, blocks: seq<Block>, start: nat, end: nat, need: nat)
    requires Holds(headers, blocks, start, end) && Coalesced(blocks) && !Fits(blocks, need) && RetryFits(blocks, need)
    ensures 0 < GrowSize(PagesFor(need)) && Fits(Grown(blocks, GrowSize(PagesFor(need))), need)
  {
    RetryExactly(blocks, need);
  }

  lemma GrewAllocated(before: seq<Block>, full: seq<Block>, after: seq<Block>, need: nat, r: nat)
    requires !Fits(before, need) && before != [] && full == Grown(before, GrowSize(PagesFor(need))) && Fits(full, need)
    requires Allocated(full, after, need, r)
    ensures Allocated(before, after, need, r)
  {
    var f, k :| Source(full, need, f) && TakenFrom(f, need, k, after, r);
    assert Source(before, need, full) && TakenFrom(full, need, k, after, r);
  }

  lemma AllocatedIn(before: seq<Block>, after: seq<Block>, need: nat, k: nat, r: nat)
    requires TakenFrom(before, need, k, after, r)
    ensures Allocated(before, after, need, r) && Fits(before, need)
  {
    assert Fits(before, need);
    assert Source(before, need, before);
  }

  /**
   * What the caller gets: a payload nobody else has, at least as large as asked for; every other live block
   * is as it was.
   */
  lemma AllocatedLive(before: seq<Block>, after: seq<Block>, need: nat, r: nat)
    requires Tiled(before) && Coalesced(before) && before != [] && 0 < need && Aligned(need)
    requires Allocated(before, after, need, r) && (Fits(before, need) || RetryFits(before, need))
    ensures exists b ::
      && b !in before && Live(after) == Live(before) + {b}
      && r == b.addr + HEADER_SIZE && need <= b.size < need + HEADER_SIZE + 16
  {
    hide Grown, Span, UsedBytes, Live, Tiled, Coalesced;
    var full, k :| Source(before, need, full) && TakenFrom(full, need, k, after, r);
    GrowSizeWhole(PagesFor(need));
    if !Fits(before, need) {
      GrownTable(before, GrowSize(PagesFor(need)));
    }
    CutTable(full, k, need);
    var b := Cut(full[k], need)[0];
    if b in before {
      assert b in Live(before) by {
        LiveHas(before, b);
      }
      assert b in Live(full);
      LiveIn(full, b);
    }
  }

  lemma AllocatedSome(before: seq<Block>, after: seq<Block>, need: nat, r: nat)
    requires Allocated(before, after, need, r)
    ensures r != NULL
  {
  }

  lemma LiveHas(blocks: seq<Block>, b: Block)
    requires b in blocks && !b.free
    ensures b in Live(blocks)
  {
  }

  lemma LiveIn(blocks: seq<Block>, b: Block)
    requires b in Live(blocks)
    ensures b in blocks
  {
  }

  /** `b` is a live block with payload `ptr`. */
  ghost predicate Holder(blocks: seq<Block>, b: Block, ptr: nat) {
    b in blocks && !b.free && ptr == b.addr + HEADER_SIZE
  }

  ghost function HeldAt(blocks: seq<Block>, b: Block): (k: nat)
    requires b in blocks
    ensures k < |blocks| && blocks[k] == b
  {
    var k :| 0 <= k < |blocks| && blocks[k] == b;
    k
  }

  /** Only block `k` may have a free neighbour. */
  ghost predicate NearlyCoalesced(blocks: seq<Block>, k: nat) {
    forall i | 0 < i < |blocks| && i != k && i != k + 1 :: Apart(blocks[i - 1], blocks[i])
  }

  lemma FreedNearly(blocks: seq<Block>, k: nat)
    requires Tiled(blocks) && Coalesced(blocks) && k < |blocks| && !blocks[k].free
    ensures NearlyCoalesced(Spliced(blocks, k, 1, [blocks[k].(free := true)]), k)
  {
    FreedTable(blocks, k);
  }

  class Heap {
    var headers: map<nat, Header>
    var heapStart: nat
    var heapEnd: nat
    var totalAllocated: nat
    var totalFreed: nat
    var heapSize: nat
    /** The bytes of payloads, as far as anyone has written them. */
    var bytes: map<nat, bv8>
    ghost var blocks: seq<Block>

    ghost predicate Listed()
      reads this
    {
      Holds(headers, blocks, heapStart, heapEnd)
    }

    ghost predicate Counted()
      reads this
    {
      heapSize == Span(blocks) && totalAllocated - totalFreed == UsedBytes(blocks)
    }

    ghost predicate Valid()
      reads this
    {
      Listed() && Counted() && Coalesced(blocks)
    }

    /** `kmalloc_init`, with the first pages where the heap is to be. */
    constructor (newPages: nat, pages: nat)
      requires 0 < newPages && Aligned(newPages) && 0 < GrowSize(pages)
      ensures Valid() && Live(blocks) == {} && heapSize == GrowSize(pages)
    {
      GrowSizeWhole(pages);
      AlignedSum(GrowSize(pages), HEADER_SIZE);
      headers := map[newPages := Header(GrowSize(pages) - HEADER_SIZE, true, NULL)];
      heapStart, heapEnd := newPages, newPages;
      totalAllocated, totalFreed, heapSize := 0, 0, GrowSize(pages);
      bytes := map[];
      blocks := [Block(newPages, GrowSize(pages) - HEADER_SIZE, true)];
      new;
      SumsOne(blocks[0]);
      assert blocks == [blocks[0]];
    }

    /** `heap_grow` with pages that begin where the heap ends. */
    method HeapGrow(pages: nat)
      requires Valid() && 0 < GrowSize(pages)
      modifies this`headers, this`heapEnd, this`heapSize, this`blocks
      ensures Valid() && blocks == Grown(old(blocks), GrowSize(pages)) && heapSize == old(heapSize) + GrowSize(pages)
    {
      hide Tiled, Linked, Coalesced, Span, UsedBytes, BlockOk, GrowSize;
      var growSize := GrowSize(pages);
      GrowSizeWhole(pages);
      ghost var k := |blocks| - 1;
      GrownTable(blocks, growSize);
      HolderAt(headers, blocks, heapStart, heapEnd, k);
      ghost var headers0 := headers;
      var last := headers[heapEnd];
      var newPages := heapEnd + HEADER_SIZE + last.size;
      ghost var piece := Growth(blocks[k], growSize);
      if last.free {
        headers := headers[heapEnd := last.(size := last.size + growSize)];
      } else {
        headers := headers[newPages := Header(growSize - HEADER_SIZE, true, NULL)][heapEnd := last.(next := newPages)];
      }
      assert PieceLinked(headers, piece, NULL);
      HoldsSpliced(headers0, headers, blocks, heapStart, heapEnd, k, 1, piece);
      blocks := Spliced(blocks, k, 1, piece);
      if !last.free {
        heapEnd := newPages;
      }
      heapSize := heapSize + growSize;
    }

    /** `kmalloc`. */
    method Kmalloc(size: nat) returns (r: nat)
      requires Valid() && Align16(size) <= SIZE_LIMIT
      requires size == 0 || Fits(blocks, Align16(size)) || RetryFits(blocks, Align16(size))
      modifies this`headers, this`heapEnd, this`heapSize, this`totalAllocated, this`blocks
      ensures Valid()
      ensures size == 0 ==>
        r == NULL && blocks == old(blocks) && heapSize == old(heapSize) && totalAllocated == old(totalAllocated)
      ensures 0 < size ==>
        heapSize == old(heapSize) + if Fits(old(blocks), Align16(size)) then 0 else GrowSize(PagesFor(Align16(size)))
      ensures 0 < size ==> Allocated(old(blocks), blocks, Align16(size), r)
      decreases if size == 0 || Fits(blocks, Align16(size)) then 0 else 1
    {
      hide Holds, Coalesced, Span, UsedBytes, Allocated, Fits, Align16, PagesFor, GrowSize, RetryFits;
      if size == 0 {
        return NULL;
      }
      var need := Align16(size);
      var curr := heapStart;
      ghost var k := 0;
      StartAt(headers, blocks, heapStart, heapEnd);
      while curr != NULL
        invariant Valid() && unchanged(this)
        invariant k <= |blocks| && curr == (if k < |blocks| then blocks[k].addr else NULL)
        invariant forall i | 0 <= i < k :: !(blocks[i].free && need <= blocks[i].size)
        decreases |blocks| - k
      {
        AddrAt(headers, blocks, heapStart, heapEnd, k);
        var h := headers[curr];
        if h.free && h.size >= need {
          ghost var before := blocks;
          r := Take(curr, need, k);
          AllocatedIn(before, blocks, need, k, r);
          return r;
        }
        curr := h.next;
        k := k + 1;
      }
      NoFit(blocks, need);
      ghost var before := blocks;
      RetryHolds(headers, blocks, heapStart, heapEnd, need);
      HeapGrow(PagesFor(need));
      AlignAgain(size);
      ghost var full := blocks;
      r := Kmalloc(need);
      GrewAllocated(before, full, blocks, need, r);
    }

    /** The body of the search: `curr` is free and large enough. */
    method Take(curr: nat, size: nat, ghost k: nat) returns (r: nat)
      requires Valid() && k < |blocks| && blocks[k].addr == curr && FirstFit(blocks, size, k) && Aligned(size)
      requires 0 < size
      modifies this`headers, this`heapEnd, this`totalAllocated, this`blocks
      ensures Valid() && r == curr + HEADER_SIZE
      ensures blocks == Spliced(old(blocks), k, 1, Cut(old(blocks)[k], size))
    {
      hide Tiled, Linked, Coalesced, Span, UsedBytes, BlockOk;
      ghost var headers0, end0 := headers, heapEnd;
      HolderAt(headers, blocks, heapStart, heapEnd, k);
      CutTable(blocks, k, size);
      ghost var piece := Cut(blocks[k], size);
      var h := headers[curr];
      if h.size >= size + HEADER_SIZE + 16 {
        var newBlock := curr + HEADER_SIZE + size;
        headers := headers[newBlock := Header(h.size - size - HEADER_SIZE, true, h.next)];
        if curr == heapEnd {
          heapEnd := newBlock;
        }
        h := h.(size := size, next := newBlock);
      }
      h := h.(free := false);
      headers := headers[curr := h];
      totalAllocated := totalAllocated + h.size;
      assert PieceLinked(headers, piece, NextAddr(blocks, k));
      HoldsSpliced(headers0, headers, blocks, heapStart, end0, k, 1, piece);
      blocks := Spliced(blocks, k, 1, piece);
      return curr + HEADER_SIZE;
    }

    /** `kzalloc`: the payload is zero; other bytes are as they were. */
    method Kzalloc(size: nat) returns (r: nat)
      requires Valid() && Align16(size) <= SIZE_LIMIT
      requires size == 0 || Fits(blocks, Align16(size)) || RetryFits(blocks, Align16(size))
      modifies this`headers, this`heapEnd, this`heapSize, this`totalAllocated, this`blocks, this`bytes
      ensures Valid()
      ensures r == NULL <==> size == 0
      ensures 0 < size ==> Allocated(old(blocks), blocks, Align16(size), r)
      ensures forall a: nat | r <= a < r + size :: a in bytes && bytes[a] == 0
      ensures forall a: nat | !(r <= a < r + size) :: a in bytes <==> a in old(bytes)
      ensures forall a: nat | !(r <= a < r + size) && a in bytes :: bytes[a] == old(bytes)[a]
    {
      hide Holds, Coalesced, Span, UsedBytes, Allocated, Align16, Fits, PagesFor, GrowSize, RetryFits;
      r := Kmalloc(size);
      if size > 0 {
        AllocatedSome(old(blocks), blocks, Align16(size), r);
      }
      if r != NULL {
        ZeroBytes(r, size);
      }
    }

    method ZeroBytes(p: nat, size: nat)
      modifies this`bytes
      ensures forall a: nat | p <= a < p + size :: a in bytes && bytes[a] == 0
      ensures forall a: nat | !(p <= a < p + size) :: a in bytes <==> a in old(bytes)
      ensures forall a: nat | !(p <= a < p + size) && a in bytes :: bytes[a] == old(bytes)[a]
    {
      for i := 0 to size
        invariant forall a: nat | p <= a < p + i :: a in bytes && bytes[a] == 0
        invariant forall a: nat | !(p <= a < p + i) :: a in bytes <==> a in old(bytes)
        invariant forall a: nat | !(p <= a < p + i) && a in bytes :: bytes[a] == old(bytes)[a]
      {
        bytes := bytes[p + i := 0];
      }
    }

    /** `kfree` of null, or of a payload the caller holds. */
    method Kfree(ptr: nat)
      requires Valid() && (ptr == NULL || exists b :: Holder(blocks, b, ptr))
      modifies this`headers, this`heapEnd, this`totalFreed, this`blocks
      ensures Valid() && heapSize == old(heapSize)
      ensures ptr == NULL ==> blocks == old(blocks) && totalFreed == old(totalFreed)
      ensures ptr != NULL ==> exists b ::
        Holder(old(blocks), b, ptr) && Live(blocks) == Live(old(blocks)) - {b} && totalFreed == old(totalFreed) + b.size
    {
      hide Tiled, Linked, Coalesced, Span, UsedBytes, Live;
      if ptr == NULL {
        return;
      }
      ghost var b :| Holder(blocks, b, ptr);
      ghost var k := HeldAt(blocks, b);
      var block := ptr - HEADER_SIZE;
      SetFree(block, k);
      MergeNext(block, k);
      MergePrevious(block, k);
    }

    /** `block->free = 1` and the counter. */
    method SetFree(block: nat, ghost k: nat)
      requires Valid() && k < |blocks| && blocks[k].addr == block && !blocks[k].free
      modifies this`headers, this`totalFreed, this`blocks
      ensures Listed() && Counted() && NearlyCoalesced(blocks, k) && k < |blocks| && blocks[k].addr == block
      ensures blocks[k].free
      ensures Live(blocks) == Live(old(blocks)) - {old(blocks)[k]}
      ensures totalFreed == old(totalFreed) + old(blocks)[k].size
    {
      hide Tiled, Linked, Coalesced, Span, UsedBytes, Live;
      ghost var headers0 := headers;
      HolderAt(headers, blocks, heapStart, heapEnd, k);
      FreedTable(blocks, k);
      FreedNearly(blocks, k);
      ghost var piece := [blocks[k].(free := true)];
      headers := headers[block := headers[block].(free := true)];
      totalFreed := totalFreed + headers[block].size;
      assert PieceLinked(headers, piece, NextAddr(blocks, k));
      HoldsSpliced(headers0, headers, blocks, heapStart, heapEnd, k, 1, piece);
      blocks := Spliced(blocks, k, 1, piece);
    }

    /** Joins `block` with the one behind it, if that is free. */
    method MergeNext(block: nat, ghost k: nat)
      requires Listed() && Counted() && NearlyCoalesced(blocks, k) && k < |blocks| && blocks[k].addr == block
      requires blocks[k].free
      modifies this`headers, this`heapEnd, this`blocks
      ensures Listed() && Counted() && k < |blocks| && blocks[k].addr == block && blocks[k].free
      ensures forall i | 0 < i < |blocks| && i != k :: Apart(blocks[i - 1], blocks[i])
      ensures Live(blocks) == Live(old(blocks))
    {
      hide Tiled, Linked, Span, UsedBytes, Live;
      ghost var headers0, end0 := headers, heapEnd;
      HolderAt(headers, blocks, heapStart, heapEnd, k);
      var h := headers[block];
      if k + 1 < |blocks| {
        HolderAt(headers, blocks, heapStart, heapEnd, k + 1);
      }
      if h.next != NULL && headers[h.next].free {
        var next := headers[h.next];
        MergedTable(blocks, k);
        assert k + 2 < |blocks| ==> Apart(blocks[k + 1], blocks[k + 2]);
        MergedApart(blocks, k);
        ghost var piece := [Merged(blocks[k], blocks[k + 1])];
        if h.next == heapEnd {
          heapEnd := block;
        }
        headers := headers[block := Header(h.size + HEADER_SIZE + next.size, h.free, next.next)];
        assert PieceLinked(headers, piece, NextAddr(blocks, k + 1));
        HoldsSpliced(headers0, headers, blocks, heapStart, end0, k, 2, piece);
        blocks := Spliced(blocks, k, 2, piece);
      } else {
        assert k + 1 < |blocks| ==> Apart(blocks[k], blocks[k + 1]);
      }
    }

    /** Walks to the block before `block` and joins them, if that is free. */
    method MergePrevious(block: nat, ghost k: nat)
      requires Listed() && Counted() && k < |blocks| && blocks[k].addr == block && blocks[k].free
      requires forall i | 0 < i < |blocks| && i != k :: Apart(blocks[i - 1], blocks[i])
      modifies this`headers, this`heapEnd, this`blocks
      ensures Valid() && Live(blocks) == Live(old(blocks))
    {
      hide Tiled, Linked, Span, UsedBytes, Live, Holds;
      var prev := FindPrevious(block, k);
      if k > 0 {
        HolderAt(headers, blocks, heapStart, heapEnd, k - 1);
      }
      if prev != NULL && headers[prev].free {
        JoinPrevious(prev, block, k);
      } else {
        assert 0 < k ==> Apart(blocks[k - 1], blocks[k]);
      }
    }

    /** The walk: null if `block` is the first. */
    method FindPrevious(block: nat, ghost k: nat) returns (prev: nat)
      requires Listed() && k < |blocks| && blocks[k].addr == block
      ensures prev == if k == 0 then NULL else blocks[k - 1].addr
    {
      hide Tiled, Linked, Holds;
      StartAt(headers, blocks, heapStart, heapEnd);
      HolderAt(headers, blocks, heapStart, heapEnd, k);
      prev := NULL;
      var curr := heapStart;
      ghost var j := 0;
      while curr != NULL && curr != block
        invariant j <= k && curr == blocks[j].addr && prev == if j == 0 then NULL else blocks[j - 1].addr
        decreases k - j
      {
        HolderAt(headers, blocks, heapStart, heapEnd, j);
        prev := curr;
        curr := headers[curr].next;
        j := j + 1;
      }
      assert j == k;
    }

    method JoinPrevious(prev: nat, block: nat, ghost k: nat)
      requires Listed() && Counted() && 0 < k < |blocks| && blocks[k].addr == block && blocks[k].free
      requires blocks[k - 1].addr == prev && blocks[k - 1].free
      requires forall i | 0 < i < |blocks| && i != k :: Apart(blocks[i - 1], blocks[i])
      modifies this`headers, this`heapEnd, this`blocks
      ensures Valid() && Live(blocks) == Live(old(blocks))
    {
      hide Tiled, Linked, Span, UsedBytes, Live, Coalesced, Apart;
      ghost var headers0, end0 := headers, heapEnd;
      HolderAt(headers, blocks, heapStart, heapEnd, k - 1);
      HolderAt(headers, blocks, heapStart, heapEnd, k);
      MergedTable(blocks, k - 1);
      JoinedApart(blocks, k);
      ghost var piece := [Merged(blocks[k - 1], blocks[k])];
      headers := headers[prev := Header(headers[prev].size + HEADER_SIZE + headers[block].size, true,
        headers[block].next)];
      if block == heapEnd {
        heapEnd := prev;
      }
      assert PieceLinked(headers, piece, NextAddr(blocks, k));
      HoldsSpliced(headers0, headers, blocks, heapStart, end0, k - 1, 2, piece);
      blocks := Spliced(blocks, k - 1, 2, piece);
    }
  }
}