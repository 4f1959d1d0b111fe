/** The segmented array (`LogArray`), with the lifetime of its elements, of its blocks and of the arrays of
    pointers to its blocks.
  */
module LogArray {
  import opened Bits
  import opened LogBlocks
  import BitWords
  import BitVec

  /** Memory for an element, with or without a constructed element in it. */
  datatype Cell<T> = Raw | Made(value: T)

  /** Memory from `malloc`. */
  type Block<T> = array<Cell<T>>
  type Block?<T> = array?<Cell<T>>

  /** What the cell of element `i` holds when the array holds `s`. */
  function CellOf<T>(s: seq<T>, i: nat): Cell<T> {
    if i < |s| then Made(s[i]) else Raw
  }

  /** The block pointers are kept in arrays of a multiple of four. */
  function RoundUp(blocks: nat): nat {
    (blocks + 3) / 4 * 4
  }

  lemma RoundUpStep(b: nat)
    ensures b <= RoundUp(b) < b + 4
    ensures RoundUp(b + 1) == if b % 4 == 0 then b + 4 else RoundUp(b)
    ensures b % 4 == 0 ==> RoundUp(b) == b
  {
    var q, r := b / 4, b % 4;
    assert b == 4 * q + r;
    assert (b + 3) / 4 == if r == 0 then q else q + 1;
    assert (b + 1 + 3) / 4 == q + 1;
  }

  lemma RoundUpMono(a: nat, b: nat)
    requires a <= b
    ensures RoundUp(a) <= RoundUp(b)
  {
  }

  function Reversed<T>(s: seq<T>): seq<T> {
    if s == [] then [] else Reversed(s[1..]) + [s[0]]
  }

  lemma {:induction false} ReversedConcat<T>(s: seq<T>, t: seq<T>)
    ensures Reversed(s + t) == Reversed(t) + Reversed(s)
  {
    if s == [] {
      assert s + t == t;
    } else {
      ReversedConcat(s[1..], t);
      assert (s + t)[1..] == s[1..] + t;
    }
  }

  lemma {:induction false} ReversedLength<T>(s: seq<T>)
    ensures |Reversed(s)| == |s|
  {
    if s != [] {
      ReversedLength(s[1..]);
    }
  }

  /** The elements and blocks of an array, with the elements that were destroyed and the blocks that were freed. */
  datatype Life<T> = Life(s: seq<T>, gone: seq<T>, store: seq<Block<T>>, freed: set<Block<T>>)

  /** From `a` to `b` the last elements were destroyed, backwards, and the last blocks freed. */
  ghost predicate Shrinks<T>(a: Life<T>, b: Life<T>) {
    && b.s <= a.s && b.gone == a.gone + Reversed(a.s[|b.s|..])
    && b.store <= a.store && b.freed == a.freed + (set x | x in a.store[|b.store|..])
  }

  lemma ShrinksOn<T>(a: Life<T>, b: Life<T>, c: Life<T>)
    requires Shrinks(a, b) && Shrinks(b, c)
    ensures Shrinks(a, c)
  {
    assert a.s[|c.s|..] == b.s[|c.s|..] + a.s[|b.s|..];
    ReversedConcat(b.s[|c.s|..], a.s[|b.s|..]);
    assert a.store[|c.store|..] == b.store[|c.store|..] + a.store[|b.store|..];
  }

  ghost function Boxes<T>(store: seq<Block<T>>): set<object> {
    set b | b in store
  }

  /** Blocks of the right sizes, apart from each other. */
  ghost predicate Blocks<T>(lo: nat, hi: nat, store: seq<Block<T>>) {
    && lo < hi
    && (forall b :: 0 <= b < |store| ==> store[b].Length == SizeOf(lo, hi, b))
    && (forall a, b :: 0 <= a < b < |store| ==> store[a] != store[b])
  }

  /** The blocks hold `s`, and nothing else. */
  ghost predicate Holds<T>(lo: nat, hi: nat, store: seq<Block<T>>, s: seq<T>)
    requires Blocks(lo, hi, store)
    reads store
  {
    forall b, o :: 0 <= b < |store| && 0 <= o < store[b].Length ==> store[b][o] == CellOf(s, StartOf(lo, hi, b) + o)
  }

  /** A block that can follow the others when they hold `s`. */
  ghost predicate Follows<T>(lo: nat, hi: nat, store: seq<Block<T>>, s: seq<T>, more: Block<T>)
    reads more
  {
    && more.Length == SizeOf(lo, hi, |store|) && |s| <= StartOf(lo, hi, |store|)
    && (forall o :: 0 <= o < more.Length ==> more[o] == Raw)
    && (forall b :: 0 <= b < |store| ==> store[b] != more)
  }

  lemma BlocksMore<T>(lo: nat, hi: nat, store: seq<Block<T>>, s: seq<T>, more: Block<T>, store': seq<Block<T>>)
    requires Blocks(lo, hi, store) && Follows(lo, hi, store, s, more) && store' == store + [more]
    ensures Blocks(lo, hi, store')
  {
  }

  lemma HoldsMore<T>(lo: nat, hi: nat, store: seq<Block<T>>, s: seq<T>, more: Block<T>, store': seq<Block<T>>)
    requires Blocks(lo, hi, store) && Holds(lo, hi, store, s) && Follows(lo, hi, store, s, more) && store' == store + [more]
    requires Blocks(lo, hi, store')
    ensures Holds(lo, hi, store', s)
  {
    forall b, o | 0 <= b < |store'| && 0 <= o < store'[b].Length
      ensures store'[b][o] == CellOf(s, StartOf(lo, hi, b) + o)
    {
      if b < |store| {
        assert store'[b] == store[b];
      }
    }
  }

  /** Which of the allocations and constructions of a call fail. */
  datatype Fate = Fate(table: bool, block: bool, make: bool)

  /** A new block `b` is allocated, with a new table of pointers if the old one is full. */
  predicate Allocates(b: nat, fate: Fate) {
    !fate.block && (NewTable(b) ==> !fate.table)
  }

  predicate NewTable(b: nat) {
    b == 1 || (b > 1 && b % 4 == 0)
  }

  /** The new table is not freed when the allocation of the block fails. */
  predicate Leaks(b: nat, fate: Fate) {
    b > 1 && b % 4 == 0 && !fate.table && fate.block
  }

  function Fill<T>(v: T, k: nat): seq<T> {
    seq(k, _ => v)
  }

  function AllMade<T>(s: seq<T>): seq<Cell<T>> {
    seq(|s|, i requires 0 <= i < |s| => Made(s[i]))
  }

  /** `s` without `k` elements from `pos` on. */
  function Without<T>(s: seq<T>, pos: nat, k: nat): seq<T>
    requires pos + k <= |s|
  {
    s[..pos] + s[pos + k..]
  }

  /** In `t` the elements of `s` from `pos + k` on have moved down by `k`, as far as place `to`. */
  ghost predicate Closed<T>(s: seq<T>, t: seq<T>, pos: nat, k: nat, to: nat) {
    && |t| == |s| && pos <= to <= to + k <= |s|
    && (forall j {:trigger t[j]} :: 0 <= j < |s| ==> t[j] == s[if pos <= j < to then j + k else j])
  }

  /** The first `n` elements of `s`, without those whose bit is set. */
  function Kept<T>(s: seq<T>, ws: seq<nat>, k: nat, n: nat): seq<T>
    requires k > 0 && n <= |s|
  {
    if n == 0 then [] else Kept(s, ws, k, n - 1) + if BitWords.At(ws, k, n - 1) then [] else [s[n - 1]]
  }

  /** Between set bits nothing is kept, between clear bits everything. */
  lemma {:induction false} KeptNone<T>(s: seq<T>, ws: seq<nat>, k: nat, a: nat, b: nat)
    requires k > 0 && a <= b <= |s| && forall i: nat :: a <= i < b ==> BitWords.At(ws, k, i)
    ensures Kept(s, ws, k, b) == Kept(s, ws, k, a)
  {
    if a < b {
      KeptNone(s, ws, k, a, b - 1);
    }
  }

  lemma {:induction false} KeptAll<T>(s: seq<T>, ws: seq<nat>, k: nat, a: nat, b: nat)
    requires k > 0 && a <= b <= |s| && BitWords.NoneIn(ws, k, a, b)
    ensures Kept(s, ws, k, b) == Kept(s, ws, k, a) + s[a..b]
  {
    if a < b {
      KeptAll(s, ws, k, a, b - 1);
      assert s[a..b] == s[a..b - 1] + [s[b - 1]];
    }
  }

  /** The first elements of `t` are those kept of the first `read` of `s`, and those from `read` on are untouched. */
  ghost predicate Filtered<T>(s: seq<T>, t: seq<T>, ws: seq<nat>, k: nat, write: nat, read: nat)
    requires k > 0
  {
    |t| == |s| && write <= read <= |s| && t[..write] == Kept(s, ws, k, read) && t[read..] == s[read..]
  }

  lemma FilteredStep<T>(s: seq<T>, t: seq<T>, u: seq<T>, ws: seq<nat>, k: nat, write: nat, read: nat)
    requires k > 0 && Filtered(s, t, ws, k, write, read) && read < |s| && !BitWords.At(ws, k, read)
    requires u == t[write := t[read]]
    ensures Filtered(s, u, ws, k, write + 1, read + 1)
  {
    assert t[read] == t[read..][0] == s[read];
    assert u[..write + 1] == t[..write] + [s[read]];
    assert u[read + 1..] == t[read..][1..] && s[read + 1..] == s[read..][1..];
  }

  /** A call of the function given to `ApplyContiguous`: the cells of `block` from `from` to `to`. */
  datatype Call<T> = Call(block: Block<T>, from: nat, to: nat)

  /** The cells of the calls, one after the other, are `s`; every call is for one cell at least. */
  ghost predicate Covers<T>(calls: seq<Call<T>>, s: seq<Cell<T>>)
    reads set c | c in calls :: c.block
  {
    if calls == [] then s == [] else
      var c := calls[|calls| - 1];
      var k := |s| - (c.to - c.from);
      c.from < c.to <= c.block.Length && k >= 0 && s[k..] == c.block[c.from..c.to] && Covers(calls[..|calls| - 1], s[..k])
  }

  lemma CoversMore<T>(calls: seq<Call<T>>, s: seq<Cell<T>>, c: Call<T>, t: seq<Cell<T>>)
    requires Covers(calls, s) && c.from < c.to <= c.block.Length && c.block[c.from..c.to] == t
    ensures Covers(calls + [c], s + t)
  {
    var k := |s + t| - (c.to - c.from);
    assert k == |s| && (s + t)[..k] == s && (s + t)[k..] == t && (calls + [c])[..|calls|] == calls;
  }

  /** The sum of the counts that the first `n` calls returned. */
  function Sum(counts: nat -> nat, n: nat): nat {
    if n == 0 then 0 else Sum(counts, n - 1) + counts(n - 1)
  }

  /** The call returned as many as it was given. */
  predicate Full<T>(counts: nat -> nat, calls: seq<Call<T>>, i: nat)
    requires i < |calls|
  {
    counts(i) == calls[i].to - calls[i].from
  }

  /** `total` is the sum of the counts, and the first `n` calls returned as many as they were given. */
  ghost predicate Counted<T>(counts: nat -> nat, calls: seq<Call<T>>, total: nat, n: nat) {
    n <= |calls| && total == Sum(counts, |calls|) && forall i :: 0 <= i < n ==> Full(counts, calls, i)
  }

  lemma CountMore<T>(counts: nat -> nat, calls: seq<Call<T>>, total: nat, c: Call<T>)
    requires Counted(counts, calls, total, |calls|)
    ensures Counted(counts, calls + [c], total + counts(|calls|), |calls|)
    ensures counts(|calls|) == c.to - c.from <==> Counted(counts, calls + [c], total + counts(|calls|), |calls| + 1)
  {
    forall i | 0 <= i < |calls|
      ensures Full(counts, calls + [c], i)
    {
      assert Full(counts, calls, i);
    }
    if Counted(counts, calls + [c], total + counts(|calls|), |calls| + 1) {
      assert Full(counts, calls + [c], |calls|);
    }
  }

  class LogArray<T> {
    const lo: nat
    const hi: nat
    /** The number of elements; if it is negative, the number of cells taken, the last of which is raw. */
    var n: int
    var single: Block?<T>
    var ptrs: array?<Block?<T>>

    /** The blocks in order, the number of pointer arrays not freed, the elements, those destroyed, and
        the blocks freed. */
    ghost var store: seq<Block<T>>
    ghost var tables: int
    ghost var s: seq<T>
    ghost var gone: seq<T>
    ghost var freed: set<Block<T>>

    function Taken(): nat
      reads this`n
    {
      if n < 0 then -n else n
    }

    function Count(): nat
      reads this`n
    {
      if n < 0 then -n - 1 else n
    }

    ghost function Repr(): set<object>
      reads this`store, this`ptrs
    {
      Boxes(store) + (if ptrs == null then {} else {ptrs})
    }

    /** The table of pointers to the blocks, with room for `size`. */
    ghost predicate Table(store: seq<Block<T>>, size: nat)
      reads this`ptrs, ptrs
    {
      && ptrs != null && |store| <= ptrs.Length == size
      && (forall b :: 0 <= b < |store| ==> ptrs[b] == store[b])
      && (forall b :: |store| <= b < ptrs.Length ==> ptrs[b] == null)
    }

    ghost predicate Points(store: seq<Block<T>>)
      reads this`single, this`ptrs, ptrs
    {
      if |store| == 0 then single == null && ptrs == null
      else if |store| == 1 then single == store[0] && ptrs == null
      else single == null && Table(store, RoundUp(|store|))
    }

    /** No block in use was freed. */
    ghost predicate Owned()
      reads this`store, this`freed
    {
      forall b :: b in store ==> b !in freed
    }

    ghost predicate Stored()
      reads this`single, this`ptrs, this`store, this`s, this`freed, Repr()
    {
      Blocks(lo, hi, store) && Holds(lo, hi, store, s) && Points(store) && Owned()
    }

    ghost predicate Valid()
      reads this, Repr()
    {
      Stored() && |s| == Count() && |store| == BlocksFor(lo, hi, Taken())
    }

    /** The pointer arrays that nothing points to any more. */
    ghost function Lost(): int
      reads this`tables, this`ptrs
    {
      if ptrs == null then tables else tables - 1
    }

    constructor (lo: nat, hi: nat)
      requires lo < hi
      ensures Valid() && s == [] && this.lo == lo && this.hi == hi
      ensures Lost() == 0 && gone == [] && freed == {} && Repr() == {}
    {
      this.lo, this.hi := lo, hi;
      n, single, ptrs := 0, null, null;
      store, tables, s, gone := [], 0, [], [];
      freed := {};
    }

    /** The block `b`. */
    method GetBlock(b: nat) returns (r: Block<T>)
      requires Points(store) && b < |store|
      ensures r == store[b]
    {
      if ptrs == null {
        r := single;
      } else {
        r := ptrs[b];
      }
    }

    /** `ElGet`, or nothing where it throws. */
    method ElGet(i: nat) returns (ok: bool, r: Cell<T>)
      requires Valid()
      ensures ok <==> i < |s|
      ensures ok ==> r == Made(s[i])
    {
      if i >= Count() {
        return false, Raw;
      }
      BlockHolds(lo, hi, i);
      Within(i);
      var b := GetBlock(BlockOf(lo, hi, i));
      ok, r := true, b[OffsetOf(lo, hi, i)];
    }

    /** The place of a cell that is taken is in a block. */
    lemma Within(i: nat)
      requires Valid() && i < Taken()
      ensures BlockOf(lo, hi, i) < |store|
    {
      if i < Taken() - 1 {
        BlockOrder(lo, hi, i, Taken() - 1);
      }
    }

    // Cells

    /** One cell changes, and with it the sequence that is held. */
    method PutCell(block: Block<T>, b: nat, o: nat, c: Cell<T>, ghost t: seq<T>)
      requires Blocks(lo, hi, store) && Holds(lo, hi, store, s)
      requires b < |store| && block == store[b] && o < block.Length
      requires CellOf(t, StartOf(lo, hi, b) + o) == c
      requires forall i: nat :: i != StartOf(lo, hi, b) + o ==> CellOf(t, i) == CellOf(s, i)
      modifies block
      ensures Blocks(lo, hi, store) && Holds(lo, hi, store, t)
    {
      block[o] := c;
      forall a, p | 0 <= a < |store| && 0 <= p < store[a].Length
        ensures store[a][p] == CellOf(t, StartOf(lo, hi, a) + p)
      {
        if a == b && p == o {
        } else if StartOf(lo, hi, a) + p == StartOf(lo, hi, b) + o {
          PlaceUnique(lo, hi, a, p, b, o);
        }
      }
    }

    /** `_DestructContigRange`: the last elements are destroyed backwards. */
    method DestructRange(block: Block<T>, b: nat, from: nat, to: nat)
      requires Blocks(lo, hi, store) && Holds(lo, hi, store, s)
      requires b < |store| && block == store[b] && from <= to <= block.Length
      requires |s| == StartOf(lo, hi, b) + to
      modifies this`s, this`gone, block
      ensures Blocks(lo, hi, store) && Holds(lo, hi, store, s)
      ensures s == old(s)[..StartOf(lo, hi, b) + from] && gone == old(gone) + Reversed(old(s)[|s|..])
    {
      var i := to;
      assert s == old(s)[..|s|] && old(s)[|s|..] == [];
      while i != from
        invariant from <= i <= to && Blocks(lo, hi, store) && Holds(lo, hi, store, s)
        invariant |s| == StartOf(lo, hi, b) + i && s == old(s)[..|s|]
        invariant gone == old(gone) + Reversed(old(s)[|s|..])
      {
        i := i - 1;
        DestructLast(block, b, i);
        assert old(s)[|s|..][1..] == old(s)[|s| + 1..];
      }
    }

    method DestructLast(block: Block<T>, b: nat, o: nat)
      requires Blocks(lo, hi, store) && Holds(lo, hi, store, s)
      requires b < |store| && block == store[b] && o < block.Length
      requires |s| == StartOf(lo, hi, b) + o + 1
      modifies this`s, this`gone, block
      ensures Blocks(lo, hi, store) && Holds(lo, hi, store, s)
      ensures s == old(s)[..|old(s)| - 1] && gone == old(gone) + [old(s)[|old(s)| - 1]]
    {
      ghost var t := s[..|s| - 1];
      PutCell(block, b, o, Raw, t);
      s, gone := t, gone + [s[|s| - 1]];
    }

    /** The last block is freed: nothing is left in it, and it was not freed before. */
    ghost method FreeLast(block: Block<T>, b: nat)
      requires Blocks(lo, hi, store) && Holds(lo, hi, store, s) && Owned()
      requires |store| == b + 1 && block == store[b] && |s| <= StartOf(lo, hi, b)
      modifies this`store, this`freed
      ensures Blocks(lo, hi, store) && Holds(lo, hi, store, s) && Owned()
      ensures store == old(store)[..b] && freed == old(freed) + {block}
    {
      assert block !in freed && forall o :: 0 <= o < block.Length ==> block[o] == Raw;
      store, freed := store[..b], freed + {block};
    }

    // Adding an element

    /** A new block after the others, unless an allocation fails. */
    method NewBlock(b: nat, fate: Fate) returns (ok: bool)
      requires Valid() && b == |store| && n >= 0 && StartOf(lo, hi, b) == n
      modifies this`single, this`ptrs, this`store, this`tables, ptrs
      ensures ok == Allocates(b, fate) && Blocks(lo, hi, store) && Holds(lo, hi, store, s) && Points(store) && Owned()
      ensures store == old(store) || (ok && |store| == b + 1 && store[..b] == old(store) && fresh(store[b]))
      ensures ok ==> |store| == b + 1
      ensures ptrs == old(ptrs) || fresh(ptrs)
      ensures Lost() == old(Lost()) + if Leaks(b, fate) then 1 else 0
    {
      BlockHolds(lo, hi, n);
      BlockUnique(lo, hi, n, b, 0);
      if NewTable(b) && fate.table {
        return false;
      }
      if fate.block {
        if Leaks(b, fate) {
          tables := tables + 1;
        }
        return false;
      }
      AddBlock(b, BlockSizeOf(lo, hi, n));
      ok := true;
    }

    method AddBlock(b: nat, size: nat)
      requires Blocks(lo, hi, store) && Holds(lo, hi, store, s) && Points(store) && Owned()
      requires b == |store| && size == SizeOf(lo, hi, b) && |s| <= StartOf(lo, hi, b)
      modifies this`single, this`ptrs, this`store, this`tables, ptrs
      ensures Blocks(lo, hi, store) && Holds(lo, hi, store, s) && Points(store) && Owned()
      ensures |store| == b + 1 && store[..b] == old(store) && fresh(store[b])
      ensures (ptrs == old(ptrs) || fresh(ptrs)) && Lost() == old(Lost())
    {
      var block := NewMemory(b, size);
      ghost var more := store + [block];
      AddPointer(b, block);
      assert Blocks(lo, hi, more) && Holds(lo, hi, more, s);
      store := more;
    }

    method NewMemory(b: nat, size: nat) returns (block: Block<T>)
      requires Blocks(lo, hi, store) && Holds(lo, hi, store, s)
      requires b == |store| && size == SizeOf(lo, hi, b) && |s| <= StartOf(lo, hi, b)
      ensures Blocks(lo, hi, store + [block]) && Holds(lo, hi, store + [block], s)
      ensures fresh(block)
    {
      block := new Cell<T>[size](_ => Raw);
      BlocksMore(lo, hi, store, s, block, store + [block]);
      HoldsMore(lo, hi, store, s, block, store + [block]);
    }

    /** The pointer to the new block `b`; there is a new table if the old one is full. */
    method AddPointer(b: nat, block: Block<T>)
      requires Points(store) && b == |store|
      modifies this`single, this`ptrs, this`tables, ptrs
      ensures Points(store + [block]) && (ptrs == old(ptrs) || fresh(ptrs)) && Lost() == old(Lost())
    {
      if b == 0 {
        single := block;
      } else if b == 1 {
        var pair := new Block?<T>[4](_ => null);
        pair[0], pair[1] := single, block;
        single, ptrs, tables := null, pair, tables + 1;
      } else {
        if b % 4 == 0 {
          LongerTable(b);
        }
        SetPointer(b, block);
      }
    }

    method LongerTable(b: nat)
      requires b > 1 && b % 4 == 0 && b == |store| && Table(store, RoundUp(b))
      modifies this`ptrs, this`tables
      ensures Table(store, RoundUp(b + 1)) && fresh(ptrs) && Lost() == old(Lost())
    {
      RoundUpStep(b);
      var more := CopyTable(b, b + 4);
      ptrs := more;
    }

    /** A new table, with the first `b` pointers of the old one. */
    method CopyTable(b: nat, size: nat) returns (more: array<Block?<T>>)
      requires ptrs != null && b <= ptrs.Length && b <= size
      ensures fresh(more) && more.Length == size
      ensures forall j :: 0 <= j < b ==> more[j] == ptrs[j]
      ensures forall j :: b <= j < size ==> more[j] == null
    {
      more := new Block?<T>[size](_ => null);
      for i := 0 to b
        invariant forall j :: 0 <= j < size ==> more[j] == if j < i then ptrs[j] else null
      {
        more[i] := ptrs[i];
      }
    }

    method SetPointer(b: nat, block: Block<T>)
      requires b > 1 && b == |store| && single == null && Table(store, RoundUp(b + 1))
      modifies ptrs
      ensures Points(store + [block])
    {
      RoundUpStep(b);
      ptrs[b] := block;
    }

    /** The next element is in the last block, or begins the next one. */
    lemma NextTaken()
      requires Valid() && n >= 0
      ensures BlockOf(lo, hi, n) == if OffsetOf(lo, hi, n) == 0 then |store| else |store| - 1
      ensures OffsetOf(lo, hi, n) == 0 ==> StartOf(lo, hi, |store|) == n
    {
      BlockHolds(lo, hi, n);
      if n > 0 {
        NextPlace(lo, hi, n);
      } else {
        BlockUnique(lo, hi, 0, 0, 0);
      }
    }

    /** Whether the next element finds memory: a cell that is taken already, a cell in the last block, or a new
        block. */
    ghost predicate Room(fate: Fate)
      reads this`n, this`store
    {
      lo < hi && (n < 0 || OffsetOf(lo, hi, n) != 0 || Allocates(|store|, fate))
    }

    /** A table is lost when it was allocated for a block that was not. */
    ghost predicate Loses(fate: Fate)
      reads this`n, this`store
    {
      lo < hi && n >= 0 && OffsetOf(lo, hi, n) == 0 && Leaks(|store|, fate)
    }

    /** `_PvAllocEnd`: takes the cell after the last element, unless a taken one is there already, and returns
        its block and the place in it. */
    method AllocEnd(fate: Fate) returns (ok: bool, b: nat, o: nat)
      requires Valid()
      modifies this`n, this`single, this`ptrs, this`store, this`tables, ptrs
      ensures Valid() && fresh(Repr() - old(Repr())) && Lost() == old(Lost()) + if old(Loses(fate)) then 1 else 0
      ensures ok == old(Room(fate)) && n == if ok then -(|s| + 1) else old(n)
      ensures ok ==> b < |store| && b == BlockOf(lo, hi, |s|) && o == OffsetOf(lo, hi, |s|)
    {
      BlockHolds(lo, hi, Count());
      b := BlockOf(lo, hi, Count());
      o := OffsetOf(lo, hi, Count());
      ok := true;
      if n >= 0 {
        ok := AllocNext(b, o, fate);
        if ok {
          Take(b);
        }
      }
    }

    method AllocNext(b: nat, o: nat, fate: Fate) returns (ok: bool)
      requires Valid() && n >= 0 && b == BlockOf(lo, hi, n) && o == OffsetOf(lo, hi, n)
      modifies this`single, this`ptrs, this`store, this`tables, ptrs
      ensures Stored() && fresh(Repr() - old(Repr())) && Lost() == old(Lost()) + if old(Loses(fate)) then 1 else 0
      ensures ok == old(Room(fate)) && (if ok then |store| == b + 1 else Valid())
    {
      NextTaken();
      ok := true;
      if o == 0 {
        ok := NewBlock(b, fate);
      }
    }

    method Take(b: nat)
      requires Stored() && |s| == n && lo < hi && b == BlockOf(lo, hi, n) && |store| == b + 1
      modifies this`n
      ensures Valid() && n == -(|s| + 1)
    {
      n := -(n + 1);
    }

    /** `emplaceAtEnd`: the construction may throw, which leaves its cell taken and raw. */
    method Emplace(v: T, fate: Fate) returns (ok: bool)
      requires Valid()
      modifies this, Repr()
      ensures Valid() && fresh(Repr() - old(Repr())) && gone == old(gone) && freed == old(freed)
      ensures Lost() == old(Lost()) + if old(Loses(fate)) then 1 else 0
      ensures ok == (old(Room(fate)) && !fate.make)
      ensures fate == Fate(false, false, false) ==> ok && Lost() == old(Lost())
      ensures s == if ok then old(s) + [v] else old(s)
      ensures n == if ok then |s| else if old(Room(fate)) then -(|s| + 1) else old(n)
    {
      var b, o;
      ok, b, o := AllocEnd(fate);
      if !ok || fate.make {
        return false;
      }
      Construct(b, o, v);
    }

    /** The cell that was taken gets its element. */
    method Construct(b: nat, o: nat, v: T)
      requires Valid() && n == -(|s| + 1)
      requires b < |store| && b == BlockOf(lo, hi, |s|) && o == OffsetOf(lo, hi, |s|)
      modifies this`s, this`n, store[b]
      ensures Valid() && s == old(s) + [v] && n == |s|
    {
      FillCell(b, o, v);
      n := -n;
    }

    method FillCell(b: nat, o: nat, v: T)
      requires Stored() && lo < hi && b < |store| && b == BlockOf(lo, hi, |s|) && o == OffsetOf(lo, hi, |s|)
      modifies this`s, store[b]
      ensures Stored() && s == old(s) + [v]
    {
      BlockHolds(lo, hi, |s|);
      var block := GetBlock(b);
      ghost var t := s + [v];
      PutCell(block, b, o, Made(v), t);
      s := t;
    }

    // Destroying elements and freeing blocks

    ghost function Lived(): Life<T>
      reads this`s, this`gone, this`store, this`freed
    {
      Life(s, gone, store, freed)
    }

    /** The last block is `b`, with `used` elements. */
    ghost predicate Tail(b: nat, used: nat)
      reads this`store, this`s, this`freed, store
    {
      && Blocks(lo, hi, store) && Holds(lo, hi, store, s) && Owned()
      && |store| == b + 1 && |s| == StartOf(lo, hi, b) + used && used <= SizeOf(lo, hi, b)
    }

    /** The elements of the last block from `from` on are destroyed. */
    method Peel(block: Block<T>, b: nat, from: nat, used: nat)
      requires Tail(b, used) && from <= used && block == store[b]
      modifies this`s, this`gone, block
      ensures Tail(b, from) && Shrinks(old(Lived()), Lived())
    {
      DestructRange(block, b, from, used);
    }

    /** The last block is destroyed and freed; the one before it, if there is one, is full. */
    method PeelBlock(block: Block<T>, b: nat, used: nat)
      requires Tail(b, used) && block == store[b]
      modifies this`s, this`gone, this`store, this`freed, block
      ensures Blocks(lo, hi, store) && Holds(lo, hi, store, s) && Owned()
      ensures |store| == b && |s| == StartOf(lo, hi, b)
      ensures Shrinks(old(Lived()), Lived())
      ensures b > 0 ==> Tail(b - 1, SizeOf(lo, hi, b - 1))
    {
      Peel(block, b, 0, used);
      ghost var middle := Lived();
      FreeLast(block, b);
      assert middle.store[b..] == [block];
      ShrinksOn(old(Lived()), middle, Lived());
    }

    /** The last block and the elements constructed in it. */
    lemma TailTaken()
      requires Valid() && n != 0
      ensures var b, o := BlockOf(lo, hi, Taken() - 1), OffsetOf(lo, hi, Taken() - 1);
        0 <= o < SizeOf(lo, hi, b) && Tail(b, if n < 0 then o else o + 1)
    {
      BlockHolds(lo, hi, Taken() - 1);
    }

    /** `Clear` */
    method Clear()
      requires Valid()
      modifies this, Repr()
      ensures Valid() && s == [] && n == 0 && Repr() == {} && Lost() == old(Lost())
      ensures Shrinks(old(Lived()), Lived())
    {
      if single == null && ptrs == null {
        assert Taken() == 0;
        return;
      }
      DestructAll();
      n, single, ptrs := 0, null, null;
    }

    /** `_Clear` */
    method DestructAll()
      requires Valid() && n != 0
      modifies this`s, this`gone, this`store, this`freed, this`tables, store
      ensures s == [] && store == [] && Shrinks(old(Lived()), Lived())
      ensures tables == old(Lost())
    {
      TailTaken();
      SingleBlock(lo, hi, Taken());
      if Taken() <= Pow2(lo) {
        PeelBlock(single, 0, Count());
      } else {
        BlockHolds(lo, hi, Taken() - 1);
        var b, o := BlockOf(lo, hi, Taken() - 1), OffsetOf(lo, hi, Taken() - 1);
        PeelAll(b, if n < 0 then o else o + 1, BlockSizeOf(lo, hi, Taken() - 1));
        tables := tables - 1;
      }
    }

    /** The part of `_Clear` for many blocks. */
    method PeelAll(b: nat, last: nat, lastSize: nat)
      requires Tail(b, last) && lastSize == SizeOf(lo, hi, b) && Points(store) && b > 0
      modifies this`s, this`gone, this`store, this`freed, store
      ensures s == [] && store == [] && Shrinks(old(Lived()), Lived())
    {
      var k, used, size := b + 1, last, lastSize;
      while k != 0
        invariant k == |store| && Shrinks(old(Lived()), Lived())
        invariant k > 0 ==> Tail(k - 1, used) && size == SizeOf(lo, hi, k - 1)
        invariant k == 0 ==> s == []
        invariant forall b :: 0 <= b < k ==> ptrs[b] == store[b]
      {
        k := k - 1;
        ghost var before := Lived();
        PeelBlock(ptrs[k], k, used);
        ShrinksOn(old(Lived()), before, Lived());
        size := SizeBefore(k, size);
        used := size;
      }
    }

    /** The size of the block before block `k`, from the size of block `k`. */
    method SizeBefore(k: nat, size: nat) returns (r: nat)
      requires lo < hi && size == SizeOf(lo, hi, k)
      ensures k > 0 ==> r == SizeOf(lo, hi, k - 1)
    {
      r := size;
      if k > 0 {
        SizesDouble(lo, hi, k - 1);
        if k - 1 < hi - lo {
          r := size / 2;
        }
      }
    }

    // A smaller size

    /** The size of the table for `k` elements differs from the one in use, so another has to be allocated. */
    ghost predicate Reallocates(k: nat)
      reads this`n
    {
      lo < hi && BlocksFor(lo, hi, k) > 1 && RoundUp(BlocksFor(lo, hi, k)) != RoundUp(BlocksFor(lo, hi, Taken()))
    }

    /** `_SetSizeSmaller`; nothing changes where it throws. */
    method SetSizeSmaller(k: nat, tableFails: bool) returns (ok: bool)
      requires Valid() && k < |s|
      modifies this, Repr()
      ensures Valid() && fresh(Repr() - old(Repr())) && Lost() == old(Lost())
      ensures ok <==> !(tableFails && k > 0 && old(Reallocates(k)))
      ensures Shrinks(old(Lived()), Lived()) && |s| == if ok then k else |old(s)|
      ensures n == if ok then k else old(n)
    {
      if k == 0 {
        Clear();
        return true;
      }
      var blocks := CountBlocks(k);
      var taken := BlockOf(lo, hi, Taken() - 1) + 1;
      if tableFails && blocks != 1 && RoundUp(blocks) != RoundUp(taken) {
        return false;
      }
      Shrink(k, blocks);
      ok := true;
    }

    /** The number of blocks that `k` elements take. */
    method CountBlocks(k: nat) returns (r: nat)
      requires lo < hi && k > 0
      ensures r == BlocksFor(lo, hi, k) > 0
      ensures r == if OffsetOf(lo, hi, k) == 0 then BlockOf(lo, hi, k) else BlockOf(lo, hi, k) + 1
    {
      NextPlace(lo, hi, k);
      r := if OffsetOf(lo, hi, k) == 0 then BlockOf(lo, hi, k) else BlockOf(lo, hi, k) + 1;
    }

    /** The place of the new size is not after the place of the last cell. */
    lemma ShrinkPlaces(k: nat)
      requires Valid() && 0 < k < |s|
      ensures var b, o := BlockOf(lo, hi, k), OffsetOf(lo, hi, k);
        0 <= o < SizeOf(lo, hi, b) && StartOf(lo, hi, b) + o == k && b <= BlockOf(lo, hi, Taken() - 1) == |store| - 1
    {
      BlockHolds(lo, hi, k);
      if k < Taken() - 1 {
        BlockOrder(lo, hi, k, Taken() - 1);
      }
    }

    /** The rest of `_SetSizeSmaller`, which does not fail. */
    method Shrink(k: nat, blocks: nat)
      requires Valid() && 0 < k < |s| && blocks == BlocksFor(lo, hi, k)
      requires blocks == if OffsetOf(lo, hi, k) == 0 then BlockOf(lo, hi, k) else BlockOf(lo, hi, k) + 1
      modifies this, Repr()
      ensures Valid() && fresh(Repr() - old(Repr())) && Lost() == old(Lost())
      ensures Shrinks(old(Lived()), Lived()) && n == k
    {
      ShrinkPlaces(k);
      if BlockOf(lo, hi, Taken() - 1) == 0 {
        ShrinkFirst(k);
      } else {
        ShrinkMany(k, blocks);
      }
      n := k;
    }

    /** All the elements are in the first block, and stay there. */
    method ShrinkFirst(k: nat)
      requires Valid() && 0 < k < |s| && |store| == 1
      modifies this`s, this`gone, store
      ensures Stored() && |s| == k && Shrinks(old(Lived()), Lived())
    {
      TailTaken();
      BlockHolds(lo, hi, Taken() - 1);
      Peel(single, 0, k, Count());
    }

    method ShrinkMany(k: nat, blocks: nat)
      requires Valid() && |store| > 1
      requires 0 < k < |s| && blocks == if OffsetOf(lo, hi, k) == 0 then BlockOf(lo, hi, k) else BlockOf(lo, hi, k) + 1
      modifies this`single, this`ptrs, this`tables, this`s, this`gone, this`store, this`freed, store, ptrs
      ensures Stored() && fresh(Repr() - old(Repr())) && Lost() == old(Lost())
      ensures Shrinks(old(Lived()), Lived()) && |s| == k && |store| == blocks
    {
      ShrinkPlaces(k);
      TailTaken();
      BlockHolds(lo, hi, Taken() - 1);
      var b, o := BlockOf(lo, hi, Taken() - 1), OffsetOf(lo, hi, Taken() - 1);
      var used := if n < 0 then o else o + 1;
      PeelAndRetable(b, used, BlockSizeOf(lo, hi, Taken() - 1), BlockOf(lo, hi, k), OffsetOf(lo, hi, k), blocks);
    }

    method PeelAndRetable(b: nat, used: nat, size: nat, newB: nat, newO: nat, blocks: nat)
      requires Tail(b, used) && size == SizeOf(lo, hi, b) && b > 0 && Points(store)
      requires newB <= b && (newB == b ==> newO <= used) && newO < SizeOf(lo, hi, newB)
      requires blocks == (if newO == 0 then newB else newB + 1) > 0
      modifies this`single, this`ptrs, this`tables, this`s, this`gone, this`store, this`freed, store, ptrs
      ensures Stored() && (ptrs == old(ptrs) || ptrs == null || fresh(ptrs)) && Lost() == old(Lost())
      ensures Shrinks(old(Lived()), Lived()) && |s| == StartOf(lo, hi, newB) + newO && |store| == blocks
    {
      RoundUpMono(blocks, |store|);
      PeelTo(b, used, size, newB, newO);
      Retable(blocks);
    }

    /** The table is replaced by a shorter one, or by the only block. */
    method Retable(blocks: nat)
      requires blocks == |store| > 0 && single == null && ptrs != null && Table(store, ptrs.Length)
      requires RoundUp(blocks) <= ptrs.Length
      modifies this`single, this`ptrs, this`tables
      ensures Points(store) && (ptrs == old(ptrs) || ptrs == null || fresh(ptrs)) && Lost() == old(Lost())
    {
      if blocks == 1 {
        single, ptrs, tables := ptrs[0], null, tables - 1;
      } else if RoundUp(blocks) != ptrs.Length {
        RoundUpStep(blocks);
        var less := CopyTable(RoundUp(blocks), RoundUp(blocks));
        ptrs := less;
      }
    }

    /** Elements and blocks go until the last block but one is full, or there are `newO` elements in the last. */
    method PeelTo(b: nat, last: nat, lastSize: nat, newB: nat, newO: nat)
      requires Tail(b, last) && lastSize == SizeOf(lo, hi, b) && b > 0 && ptrs != null && Table(store, ptrs.Length)
      requires newB <= b && (newB == b ==> newO <= last) && newO < SizeOf(lo, hi, newB)
      modifies this`s, this`gone, this`store, this`freed, store, ptrs
      ensures Blocks(lo, hi, store) && Holds(lo, hi, store, s) && Owned() && Table(store, ptrs.Length)
      ensures |s| == StartOf(lo, hi, newB) + newO && |store| == if newO == 0 then newB else newB + 1
      ensures Shrinks(old(Lived()), Lived())
    {
      var used := PeelBlocks(b, last, lastSize, newB);
      ghost var before := Lived();
      if newO == 0 {
        PeelEntry(newB, used);
      } else {
        Peel(ptrs[newB], newB, newO, used);
      }
      ShrinksOn(old(Lived()), before, Lived());
    }

    /** The blocks after `newB` go. */
    method PeelBlocks(b: nat, last: nat, lastSize: nat, newB: nat) returns (used: nat)
      requires Tail(b, last) && lastSize == SizeOf(lo, hi, b) && ptrs != null && Table(store, ptrs.Length) && newB <= b
      modifies this`s, this`gone, this`store, this`freed, store, ptrs
      ensures Tail(newB, used) && used == if newB == b then last else SizeOf(lo, hi, newB)
      ensures Table(store, ptrs.Length) && Shrinks(old(Lived()), Lived())
    {
      var t, size := b, lastSize;
      used := last;
      while t != newB
        invariant newB <= t <= b && Tail(t, used) && size == SizeOf(lo, hi, t)
        invariant used == if t == b then last else size
        invariant Shrinks(old(Lived()), Lived()) && Table(store, ptrs.Length)
      {
        ghost var before := Lived();
        PeelEntry(t, used);
        ShrinksOn(old(Lived()), before, Lived());
        size := SizeBefore(t, size);
        t, used := t - 1, size;
      }
    }

    /** The last block goes, and its pointer. */
    method PeelEntry(b: nat, used: nat)
      requires Tail(b, used) && ptrs != null && Table(store, ptrs.Length)
      modifies this`s, this`gone, this`store, this`freed, store[b], ptrs
      ensures Blocks(lo, hi, store) && Holds(lo, hi, store, s) && Owned()
      ensures |store| == b && |s| == StartOf(lo, hi, b)
      ensures Shrinks(old(Lived()), Lived()) && Table(store, ptrs.Length)
      ensures b > 0 ==> Tail(b - 1, SizeOf(lo, hi, b - 1))
    {
      var block := ptrs[b];
      ptrs[b] := null;
      PeelBlock(block, b, used);
    }

    /** `_SetSizeLarger`: elements are added until an allocation or a construction fails. */
    method SetSizeLarger(k: nat, v: T, fates: nat -> Fate) returns (ok: bool)
      requires Valid() && k > |s|
      modifies this, Repr()
      ensures Valid() && fresh(Repr() - old(Repr())) && gone == old(gone) && freed == old(freed)
      ensures |old(s)| <= |s| && s == old(s) + Fill(v, |s| - |old(s)|)
      ensures ok <==> |s| == k
      ensures (forall i :: fates(i) == Fate(false, false, false)) ==> ok && Lost() == old(Lost())
    {
      ghost var size := |s|;
      ok := true;
      var more := k - Count();
      while more > 0
        invariant Valid() && fresh(Repr() - old(Repr())) && gone == old(gone) && freed == old(freed)
        invariant ok && more >= 0 && |s| + more == k && size <= |s| && s == old(s) + Fill(v, |s| - size)
        invariant (forall i :: fates(i) == Fate(false, false, false)) ==> Lost() == old(Lost())
      {
        more := more - 1;
        ok := Emplace(v, fates(more));
        if !ok {
          return;
        }
      }
    }

    /** `SetSize` */
    method SetSize(k: nat, v: T, tableFails: bool, fates: nat -> Fate) returns (ok: bool)
      requires Valid()
      modifies this, Repr()
      ensures Valid() && fresh(Repr() - old(Repr()))
      ensures k > |old(s)| ==> gone == old(gone) && |old(s)| <= |s| && s == old(s) + Fill(v, |s| - |old(s)|)
      ensures k <= |old(s)| ==> Shrinks(old(Lived()), Lived()) && (!ok ==> s == old(s))
      ensures ok <==> |s| == k
      ensures !tableFails && (forall i :: fates(i) == Fate(false, false, false)) ==> ok && Lost() == old(Lost())
    {
      ok := true;
      if k < Count() {
        ok := SetSizeSmaller(k, tableFails);
      } else if k > Count() {
        ok := SetSizeLarger(k, v, fates);
      }
    }

    // Removing elements

    /** `ElGet( w ) = std::move( ElGet( r ) )` */
    method Move(w: nat, r: nat)
      requires Valid() && w < |s| && r < |s|
      modifies this`s, store
      ensures Valid() && s == old(s)[w := old(s)[r]]
    {
      var ok, c := ElGet(r);
      BlockHolds(lo, hi, w);
      Within(w);
      Assign(BlockOf(lo, hi, w), OffsetOf(lo, hi, w), w, c);
    }

    method Assign(b: nat, o: nat, w: nat, c: Cell<T>)
      requires Stored() && w < |s| && b < |store| && o < SizeOf(lo, hi, b) && StartOf(lo, hi, b) + o == w && c.Made?
      modifies this`s, store[b]
      ensures Stored() && s == old(s)[w := c.value]
    {
      var block := GetBlock(b);
      ghost var t := s[w := c.value];
      PutCell(block, b, o, c, t);
      s := t;
    }

    /** `Remove`: the elements after the removed ones move down, and the array gets smaller. */
    method Remove(pos: nat, k: nat, tableFails: bool) returns (ok: bool)
      requires Valid()
      modifies this, Repr()
      ensures Valid() && fresh(Repr() - old(Repr())) && Lost() == old(Lost())
      ensures k > 0 && pos + k > |old(s)| ==> !ok && s == old(s)
      ensures ok && k > 0 ==> s == Without(old(s), pos, k) && |gone| == |old(gone)| + k
      ensures k == 0 ==> ok && s == old(s)
      ensures !ok && pos + k <= |old(s)| ==> tableFails && |s| == |old(s)| && s[..|s| - k] == Without(old(s), pos, k)
    {
      if k == 0 {
        return true;
      }
      if pos + k > Count() {
        return false;
      }
      ok := RemoveRange(pos, k, tableFails);
    }

    method RemoveRange(pos: nat, k: nat, tableFails: bool) returns (ok: bool)
      requires Valid() && k > 0 && pos + k <= |s|
      modifies this, Repr()
      ensures Valid() && fresh(Repr() - old(Repr())) && Lost() == old(Lost())
      ensures if ok then s == Without(old(s), pos, k) && |gone| == |old(gone)| + k
        else tableFails && |s| == |old(s)| && s[..|s| - k] == Without(old(s), pos, k)
    {
      var size := Count();
      CloseGap(pos, k);
      ReversedLength(s[size - k..]);
      ok := SetSizeSmaller(size - k, tableFails);
    }

    method CloseGap(pos: nat, k: nat)
      requires Valid() && k > 0 && pos + k <= |s|
      modifies this`s, store
      ensures Valid() && |s| == |old(s)| && s[..|s| - k] == Without(old(s), pos, k)
    {
      var size := Count();
      for cur := pos + k to size
        invariant Valid() && Closed(old(s), s, pos, k, cur - k)
      {
        Move(cur - k, cur);
      }
    }

    /** `RemoveBvElements`: the elements whose bit is set go. */
    method RemoveBvElements(bv: BitVec.BitVec, tableFails: bool) returns (ok: bool)
      requires Valid() && bv.Valid()
      modifies this, Repr()
      ensures Valid() && fresh(Repr() - old(Repr())) && Lost() == old(Lost())
      ensures bv.size == 0 ==> ok && s == old(s)
      ensures bv.size != 0 && bv.size != |old(s)| ==> !ok && s == old(s)
      ensures ok && bv.size != 0 ==> s == Kept(old(s), old(bv.words[..]), bv.k, bv.size)
      ensures ok ==> |gone| - |old(gone)| == |old(s)| - |s|
      ensures !ok && bv.size == |old(s)| ==> tableFails && |s| == |old(s)| && Kept(old(s), old(bv.words[..]), bv.k, bv.size) <= s
    {
      if bv.size == 0 {
        return true;
      }
      if bv.size != Count() {
        return false;
      }
      var first := bv.GetFirstSet();
      if first == Count() {
        KeptAll(s, bv.words[..], bv.k, 0, |s|);
        return true;
      }
      ok := RemoveSet(bv, first, tableFails);
    }

    method RemoveSet(bv: BitVec.BitVec, first: nat, tableFails: bool) returns (ok: bool)
      requires Valid() && bv.Valid() && bv.size == |s| && bv.NextSet(0, first) && first < |s|
      modifies this, Repr()
      ensures Valid() && fresh(Repr() - old(Repr())) && Lost() == old(Lost())
      ensures if ok then s == Kept(old(s), old(bv.words[..]), bv.k, bv.size)
        else tableFails && |s| == |old(s)| && Kept(old(s), old(bv.words[..]), bv.k, bv.size) <= s
      ensures ok ==> |gone| - |old(gone)| == |old(s)| - |s|
    {
      var left := Compact(bv, first);
      ReversedLength(s[left..]);
      ok := SetSizeSmaller(left, tableFails);
    }

    /** The end of the set bits that begin at `cur`. */
    method EndOfRun(bv: BitVec.BitVec, cur: nat, ghost t: seq<T>) returns (clear: nat)
      requires bv.Valid() && cur <= bv.size == |t| && (cur < bv.size ==> bv.Has(cur))
      ensures cur <= clear <= bv.size && (cur < bv.size ==> cur < clear)
      ensures clear < bv.size ==> !bv.Has(clear)
      ensures Kept(t, bv.words[..], bv.k, clear) == Kept(t, bv.words[..], bv.k, cur)
    {
      clear := bv.GetNextNotSet(cur);
      if cur < bv.size {
        KeptNone(t, bv.words[..], bv.k, cur, clear);
      }
    }

    /** The kept elements move down; `left` is how many there are. */
    method Compact(bv: BitVec.BitVec, first: nat) returns (left: nat)
      requires Valid() && bv.Valid() && bv.size == |s| && bv.NextSet(0, first) && first < |s|
      modifies this`s, store
      ensures Valid() && Filtered(old(s), s, old(bv.words[..]), bv.k, left, |s|) && left < |s|
    {
      var size := Count();
      ghost var ws := bv.words[..];
      var cur, write, removed := first, first, 0;
      var clear := EndOfRun(bv, cur, s);
      KeptAll(s, ws, bv.k, 0, cur);
      while clear != size
        invariant Valid() && bv.Valid() && bv.words[..] == ws && |s| == size
        invariant cur <= clear <= size && write < clear && cur == write + removed
        invariant clear < size ==> !bv.Has(clear)
        invariant Filtered(old(s), s, ws, bv.k, write, clear)
        decreases size - clear
      {
        removed := removed + (clear - cur);
        cur, write, clear := Turn(bv, write, clear, old(s));
      }
      removed := removed + (clear - cur);
      left := size - removed;
    }

    /** One turn of the loop, from a clear bit to the end of the next run of set ones. */
    method Turn(bv: BitVec.BitVec, write: nat, clear: nat, ghost s0: seq<T>) returns (cur: nat, w: nat, next: nat)
      requires Valid() && bv.Valid() && bv.size == |s| && clear < |s| && !bv.Has(clear)
      requires Filtered(s0, s, bv.words[..], bv.k, write, clear)
      modifies this`s, store
      ensures Valid() && bv.words[..] == old(bv.words[..]) && |s| == |old(s)|
      ensures clear < cur <= next <= |s| && w - write == cur - clear
      ensures next < |s| ==> !bv.Has(next)
      ensures Filtered(s0, s, bv.words[..], bv.k, w, next)
    {
      cur := NextRun(bv, clear);
      next := EndOfRun(bv, cur, s0);
      w := MoveDown(bv, write, clear, cur, s0);
    }

    method NextRun(bv: BitVec.BitVec, clear: nat) returns (cur: nat)
      requires bv.Valid() && clear < bv.size && !bv.Has(clear)
      ensures clear < cur <= bv.size && (cur < bv.size ==> bv.Has(cur)) && BitWords.NoneIn(bv.words[..], bv.k, clear, cur)
    {
      cur := bv.GetNextSet(clear);
      forall i: nat | clear <= i < cur
        ensures !BitWords.At(bv.words[..], bv.k, i)
      {
        assert i == clear || clear + 1 <= i;
      }
    }

    /** The elements from `from` up to `to` move to `write`. */
    method MoveDown(bv: BitVec.BitVec, write: nat, from: nat, to: nat, ghost s0: seq<T>) returns (w: nat)
      requires Valid() && bv.Valid() && from <= to <= |s| && BitWords.NoneIn(bv.words[..], bv.k, from, to)
      requires Filtered(s0, s, bv.words[..], bv.k, write, from)
      modifies this`s, store
      ensures Valid() && w == write + (to - from) && Filtered(s0, s, bv.words[..], bv.k, w, to)
      ensures bv.words[..] == old(bv.words[..])
    {
      w := write;
      ghost var ws := bv.words[..];
      for r := from to to
        invariant Valid() && w == write + (r - from) && Filtered(s0, s, ws, bv.k, w, r)
        invariant bv.words[..] == ws
      {
        ghost var t := s;
        Move(w, r);
        FilteredStep(s0, t, s, ws, bv.k, w, r);
        w := w + 1;
      }
    }

    // Contiguous ranges

    /** A range of a block holds a range of the elements. */
    lemma Chunk(b: nat, from: nat, to: nat)
      requires Stored() && b < |store| && from <= to <= store[b].Length && StartOf(lo, hi, b) + to <= |s|
      ensures store[b][from..to] == AllMade(s[StartOf(lo, hi, b) + from..StartOf(lo, hi, b) + to])
    {
    }

    lemma MoreChunks(calls: seq<Call<T>>, from: nat, b: nat, off: nat, end: nat)
      requires Stored() && b < |store| && off < end <= store[b].Length && StartOf(lo, hi, b) + end <= |s|
      requires from <= StartOf(lo, hi, b) + off && Covers(calls, AllMade(s[from..StartOf(lo, hi, b) + off]))
      ensures Covers(calls + [Call(store[b], off, end)], AllMade(s[from..StartOf(lo, hi, b) + end]))
    {
      var p, q := StartOf(lo, hi, b) + off, StartOf(lo, hi, b) + end;
      Chunk(b, off, end);
      CoversMore(calls, AllMade(s[from..p]), Call(store[b], off, end), AllMade(s[p..q]));
      assert AllMade(s[from..p]) + AllMade(s[p..q]) == AllMade(s[from..q]);
    }

    /** Where a range begins and ends. */
    lemma RangePlaces(from: nat, to: nat)
      requires Valid() && from < to <= |s|
      ensures var b, o, c, p := BlockOf(lo, hi, from), OffsetOf(lo, hi, from), BlockOf(lo, hi, to - 1), OffsetOf(lo, hi, to - 1);
        && b <= c < |store| && 0 <= o < SizeOf(lo, hi, b) && 0 <= p < SizeOf(lo, hi, c) && (b == c ==> o <= p)
        && StartOf(lo, hi, b) + o == from && StartOf(lo, hi, c) + p == to - 1 && BlockSizeOf(lo, hi, from) == SizeOf(lo, hi, b)
    {
      BlockHolds(lo, hi, from);
      BlockHolds(lo, hi, to - 1);
      Within(to - 1);
      if from < to - 1 {
        BlockOrder(lo, hi, from, to - 1);
      }
    }

    /** The calls so far end at place `off` of block `b`, short of `to`. */
    ghost predicate Midway(calls: seq<Call<T>>, from: nat, to: nat, b: nat, off: nat, size: nat)
      reads this, Repr(), set c | c in calls :: c.block
    {
      && Valid() && from < to <= |s| && b <= BlockOf(lo, hi, to - 1) < |store|
      && size == SizeOf(lo, hi, b) && off < size
      && from <= StartOf(lo, hi, b) + off < to && Covers(calls, AllMade(s[from..StartOf(lo, hi, b) + off]))
    }

    lemma Begin(from: nat, to: nat)
      requires Valid() && from < to <= |s|
      ensures var b, off := BlockOf(lo, hi, from), OffsetOf(lo, hi, from);
        off >= 0 && Midway([], from, to, b, off, BlockSizeOf(lo, hi, from))
    {
      RangePlaces(from, to);
      assert s[from..from] == [];
    }

    /** The rest of block `b`, and on to the next block, whose size is found by doubling. */
    lemma Continue(calls: seq<Call<T>>, from: nat, to: nat, b: nat, off: nat, size: nat)
      requires Midway(calls, from, to, b, off, size) && b != BlockOf(lo, hi, to - 1)
      ensures Midway(calls + [Call(store[b], off, size)], from, to, b + 1, 0, if b < hi - lo then 2 * size else size)
      ensures StartOf(lo, hi, b + 1) == StartOf(lo, hi, b) + size < to
    {
      BlockHolds(lo, hi, to - 1);
      EndsBefore(lo, hi, b, BlockOf(lo, hi, to - 1), OffsetOf(lo, hi, to - 1), to - 1);
      MoreChunks(calls, from, b, off, size);
      SizesDouble(lo, hi, b);
    }

    lemma Finish(calls: seq<Call<T>>, from: nat, to: nat, b: nat, off: nat, size: nat)
      requires Midway(calls, from, to, b, off, size) && b == BlockOf(lo, hi, to - 1)
      ensures OffsetOf(lo, hi, to - 1) >= off && Covers(calls + [Call(store[b], off, OffsetOf(lo, hi, to - 1) + 1)], AllMade(s[from..to]))
    {
      BlockHolds(lo, hi, to - 1);
      MoreChunks(calls, from, b, off, OffsetOf(lo, hi, to - 1) + 1);
    }

    /** `ApplyContiguous`: the function is called for ranges within a block that make up `[from, to)`. */
    method ApplyContiguous(from: nat, to: nat) returns (ok: bool, calls: seq<Call<T>>)
      requires Valid()
      ensures ok <==> from == to || from < to <= |s|
      ensures ok ==> Covers(calls, if from == to then [] else AllMade(s[from..to]))
    {
      calls := [];
      if from == to {
        return true, calls;
      }
      if !(from <= to <= Count()) {
        return false, calls;
      }
      ok := true;
      RangePlaces(from, to);
      if ptrs == null {
        assert s[from..from] == [];
        MoreChunks([], from, 0, from, to);
        calls := [Call(single, from, to)];
      } else {
        calls := ApplyBlocks(from, to);
      }
    }

    method ApplyBlocks(from: nat, to: nat) returns (calls: seq<Call<T>>)
      requires Valid() && from < to <= |s| && ptrs != null
      ensures Covers(calls, AllMade(s[from..to]))
    {
      Begin(from, to);
      var tail := BlockOf(lo, hi, to - 1);
      var b: nat, off: nat, size: nat := BlockOf(lo, hi, from), OffsetOf(lo, hi, from), BlockSizeOf(lo, hi, from);
      calls := [];
      while b != tail
        invariant Midway(calls, from, to, b, off, size)
        decreases tail - b
      {
        Continue(calls, from, to, b, off, size);
        calls := calls + [Call(ptrs[b], off, size)];
        if b < hi - lo {
          size := 2 * size;
        }
        b, off := b + 1, 0;
      }
      Finish(calls, from, to, b, off, size);
      calls := calls + [Call(ptrs[tail], off, OffsetOf(lo, hi, to - 1) + 1)];
    }

    /** `NApplyContiguous`: the same calls, up to the first that returns a count that is not that of its range;
        the result is the sum of the counts. `end` is where the ranges of the calls end. */
    method NApplyContiguous(from: nat, to: nat, counts: nat -> nat) returns (ok: bool, calls: seq<Call<T>>, total: nat, ghost end: nat)
      requires Valid()
      ensures ok <==> from == to || from < to <= |s|
      ensures ok ==> from <= end <= to && Covers(calls, if from == end then [] else AllMade(s[from..end]))
      ensures ok && from < to ==> calls != [] && Counted(counts, calls, total, |calls| - 1)
      ensures ok && end < to ==> !Counted(counts, calls, total, |calls|)
      ensures from == to ==> calls == [] && total == 0
    {
      calls, total, end := [], 0, from;
      if from == to {
        return true, calls, total, end;
      }
      if !(from <= to <= Count()) {
        return false, calls, total, end;
      }
      ok := true;
      RangePlaces(from, to);
      if ptrs == null {
        assert s[from..from] == [];
        MoreChunks([], from, 0, from, to);
        CountMore(counts, [], 0, Call(single, from, to));
        calls, total, end := [Call(single, from, to)], counts(0), to;
      } else {
        calls, total, end := NApplyBlocks(from, to, counts);
      }
    }

    method NApplyBlocks(from: nat, to: nat, counts: nat -> nat) returns (calls: seq<Call<T>>, total: nat, ghost end: nat)
      requires Valid() && from < to <= |s| && ptrs != null
      ensures from < end <= to && Covers(calls, AllMade(s[from..end]))
      ensures calls != [] && Counted(counts, calls, total, |calls| - 1)
      ensures end < to ==> !Counted(counts, calls, total, |calls|)
    {
      Begin(from, to);
      var tail := BlockOf(lo, hi, to - 1);
      var b: nat, off: nat, size: nat := BlockOf(lo, hi, from), OffsetOf(lo, hi, from), BlockSizeOf(lo, hi, from);
      calls, total := [], 0;
      while b != tail
        invariant Midway(calls, from, to, b, off, size) && Counted(counts, calls, total, |calls|)
        decreases tail - b
      {
        Continue(calls, from, to, b, off, size);
        var call := Call(ptrs[b], off, size);
        CountMore(counts, calls, total, call);
        var count := counts(|calls|);
        calls, total := calls + [call], total + count;
        if count != size - off {
          end := StartOf(lo, hi, b + 1);
          return;
        }
        if b < hi - lo {
          size := 2 * size;
        }
        b, off := b + 1, 0;
      }
      Finish(calls, from, to, b, off, size);
      var call := Call(ptrs[tail], off, OffsetOf(lo, hi, to - 1) + 1);
      CountMore(counts, calls, total, call);
      total, end := total + counts(|calls|), to;
      calls := calls + [call];
    }
  }
}
