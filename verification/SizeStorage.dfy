/**
 * The container of sizes and strides (sizes_and_strides.h, sizes_and_strides.cpp): up to five of each
 * inline, otherwise in one heap block, in the same ten words that overlay the block's pointer.
 */
module SizeStorage {

  const MAX_INLINE: nat := 5

  /** The blocks `gone` give way to the blocks `come`, of which the new ones are new; all others stay as they were. */
  ghost predicate Traded(was: map<int, seq<int>>, now: map<int, seq<int>>, gone: set<int>, come: set<int>) {
    && now.Keys == was.Keys - gone + come
    && come - gone !! was.Keys
    && forall p :: p in was && p !in gone ==> p in now && now[p] == was[p]
  }

  /** The C heap: live blocks by address; address zero is the null pointer. */
  class Heap {
    var blocks: map<int, seq<int>>
    var next: int
    var refused: nat   // requests answered with null so far

    ghost predicate Valid()
      reads this
    {
      next > 0 && forall p :: p in blocks ==> 0 < p < next
    }

    constructor ()
      ensures Valid() && blocks == map[] && refused == 0
    {
      blocks, next, refused := map[], 1, 0;
    }

    /** A block of `n` words of any content, or null. */
    method Malloc(n: nat) returns (p: int)
      requires Valid()
      modifies this
      ensures Valid() && refused == old(refused) + if p == 0 then 1 else 0
      ensures p == 0 ==> blocks == old(blocks)
      ensures p != 0 ==> p !in old(blocks) && p in blocks && |blocks[p]| == n && blocks == old(blocks)[p := blocks[p]]
    {
      var granted: bool := *;
      if !granted {
        refused := refused + 1;
        return 0;
      }
      var content: seq<int> := *;
      content := if |content| >= n then content[..n] else content + seq(n - |content|, _ => 0);
      p := next;
      next := next + 1;
      blocks := blocks[p := content];
    }

    /** Only a live block may be freed, or null. */
    method Free(p: int)
      requires Valid() && (p == 0 || p in blocks)
      modifies this`blocks
      ensures Valid() && blocks == old(blocks) - {p}
    {
      blocks := blocks - {p};
    }

    /**
     * Keeps what fits of the old block, possibly elsewhere; on failure returns null and keeps the old
     * block. From null it allocates.
     */
    method Realloc(p: int, n: nat) returns (q: int)
      requires Valid() && (p == 0 || p in blocks)
      modifies this
      ensures Valid() && refused == old(refused) + if q == 0 then 1 else 0
      ensures q == 0 ==> blocks == old(blocks)
      ensures q != 0 ==> (
        && (q == p || q !in old(blocks)) && q in blocks && |blocks[q]| == n
        && blocks == (old(blocks) - {p})[q := blocks[q]]
        && (p != 0 ==> forall i :: 0 <= i < n && i < |old(blocks)[p]| ==> blocks[q][i] == old(blocks)[p][i]))
    {
      if p == 0 {
        q := Malloc(n);
        return;
      }
      var was := blocks[p];
      var inPlace: bool := *;
      q := Malloc(n);
      if q == 0 {
        return;
      }
      var kept := if |was| < n then was + blocks[q][|was|..] else was[..n];
      if inPlace {
        blocks := (blocks - {q})[p := kept];
        q := p;
      } else {
        blocks := (blocks - {p})[q := kept];
      }
    }

    method Store(p: int, at: nat, words: seq<int>)
      requires Valid() && p in blocks && at + |words| <= |blocks[p]|
      modifies this`blocks
      ensures Valid() && blocks == old(blocks)[p := Copied(old(blocks)[p], at, words)]
      ensures p in blocks && blocks[p] == Copied(old(blocks)[p], at, words)
    {
      blocks := blocks[p := Copied(blocks[p], at, words)];
    }
  }

  /** `dst` with `words` copied over it from position `at` on. */
  function Copied(dst: seq<int>, at: nat, words: seq<int>): (r: seq<int>)
    requires at + |words| <= |dst|
    ensures |r| == |dst|
    ensures forall i :: 0 <= i < |dst| ==> r[i] == if at <= i < at + |words| then words[i - at] else dst[i]
  {
    dst[..at] + words + dst[at + |words|..]
  }

  function Zeroes(n: nat): (z: seq<int>)
    ensures |z| == n && forall i :: 0 <= i < n ==> z[i] == 0
  {
    seq(n, _ => 0)
  }

  /** A sequence cut or padded with zeros to length `n`. */
  function Resized(s: seq<int>, n: nat): (r: seq<int>)
    ensures |r| == n && forall i :: 0 <= i < n ==> r[i] == if i < |s| then s[i] else 0
  {
    if n <= |s| then s[..n] else s + Zeroes(n - |s|)
  }

  lemma CopiedWhole(dst: seq<int>, words: seq<int>)
    requires |words| == |dst|
    ensures Copied(dst, 0, words) == words
  {
  }

  /** Moving the strides up and zeroing both gaps pads sizes and strides, whatever a grown block contained beyond the old one. */
  lemma GrownWords(was: seq<int>, grown: seq<int>, oldSize: nat, newSize: nat)
    requires oldSize < newSize && |was| == 2 * oldSize && |grown| == 2 * newSize
    requires forall i :: 0 <= i < 2 * newSize && i < 2 * oldSize ==> grown[i] == was[i]
    requires 2 * oldSize <= |grown|
    ensures var gap := Zeroes(newSize - oldSize);
            var b := Copied(Copied(Copied(grown, newSize, grown[oldSize..2 * oldSize]), oldSize, gap), newSize + oldSize, gap);
            && b[..newSize] == Resized(was[..oldSize], newSize)
            && b[newSize..2 * newSize] == Resized(was[oldSize..2 * oldSize], newSize)
  {
    var gap, strides := Zeroes(newSize - oldSize), grown[oldSize..2 * oldSize];
    var a := Copied(grown, newSize, strides);
    var b := Copied(Copied(a, oldSize, gap), newSize + oldSize, gap);
    assert strides == was[oldSize..2 * oldSize];
    hide Copied, Resized, Zeroes;
    assert b[..newSize] == Resized(was[..oldSize], newSize);
    assert b[newSize..2 * newSize] == Resized(strides, newSize);
  }

  /** Copying the first words of both parts of a block inline cuts sizes and strides. */
  lemma InlineWords(words: seq<int>, block: seq<int>, oldSize: nat, newSize: nat)
    requires newSize <= MAX_INLINE < oldSize && |words| == 2 * MAX_INLINE && |block| == 2 * oldSize
    ensures var w := Copied(Copied(words, 0, block[..MAX_INLINE]), MAX_INLINE, block[oldSize..oldSize + MAX_INLINE]);
            && w[..newSize] == Resized(block[..oldSize], newSize)
            && w[MAX_INLINE..MAX_INLINE + newSize] == Resized(block[oldSize..2 * oldSize], newSize)
  {
    var w := Copied(Copied(words, 0, block[..MAX_INLINE]), MAX_INLINE, block[oldSize..oldSize + MAX_INLINE]);
    var strides := block[oldSize..oldSize + MAX_INLINE];
    forall i | 0 <= i < newSize ensures w[i] == block[i] && w[MAX_INLINE + i] == strides[i] {
    }
    assert w[..newSize] == block[..oldSize][..newSize];
    assert w[MAX_INLINE..MAX_INLINE + newSize] == strides[..newSize] == block[oldSize..2 * oldSize][..newSize];
  }

  /** The strides moved down before the block shrank. */
  lemma ShrunkWords(was: seq<int>, shrunk: seq<int>, oldSize: nat, newSize: nat)
    requires newSize < oldSize && |was| == 2 * oldSize && |shrunk| == 2 * newSize
    requires forall i :: 0 <= i < 2 * newSize ==> shrunk[i] == Copied(was, newSize, was[oldSize..oldSize + newSize])[i]
    ensures shrunk[..newSize] == Resized(was[..oldSize], newSize)
    ensures shrunk[newSize..2 * newSize] == Resized(was[oldSize..2 * oldSize], newSize)
  {
    var strides := was[oldSize..oldSize + newSize];
    forall i | 0 <= i < newSize ensures shrunk[i] == was[i] && shrunk[newSize + i] == strides[i] {
    }
    assert shrunk[..newSize] == was[..newSize] == was[..oldSize][..newSize];
    assert shrunk[newSize..2 * newSize] == strides == was[oldSize..2 * oldSize][..newSize];
  }

  /** Copying both inline parts into a new block and zeroing the gaps pads sizes and strides. */
  lemma BlockWords(raw: seq<int>, words: seq<int>, oldSize: nat, newSize: nat)
    requires oldSize <= MAX_INLINE < newSize && |words| == 2 * MAX_INLINE && |raw| == 2 * newSize
    ensures var gap := Zeroes(newSize - oldSize);
            var b := Copied(Copied(Copied(Copied(raw, 0, words[..oldSize]), oldSize, gap), newSize,
                                   words[MAX_INLINE..MAX_INLINE + oldSize]), newSize + oldSize, gap);
            && b[..newSize] == Resized(words[..oldSize], newSize)
            && b[newSize..2 * newSize] == Resized(words[MAX_INLINE..MAX_INLINE + oldSize], newSize)
  {
  }

  /** What a container holds, or the size it was left with when its block could not be had. */
  datatype Content = Held(sizes: seq<int>, strides: seq<int>) | Wrecked(size: nat)

  predicate HasBlock(c: Content) {
    c.Held? && |c.sizes| > MAX_INLINE
  }

  /** Cut or padded; when no block could be had, as before, or wrecked if there was a block to replace. */
  function ResizedContent(c: Content, n: nat, ok: bool): Content
    requires c.Held?
  {
    if ok then Held(Resized(c.sizes, n), Resized(c.strides, n))
    else if HasBlock(c) then Wrecked(|c.sizes|)
    else c
  }

  class SizesAndStrides {
    const heap: Heap
    var size: nat
    var words: seq<int>   // the inline sizes and strides; out of line, word 0 is the block's address

    predicate IsInline()
      reads this
      ensures IsInline() <==> size <= 5
    {
      size <= MAX_INLINE
    }

    ghost predicate Valid()
      reads this, heap
    {
      && heap.Valid() && |words| == 2 * MAX_INLINE
      && (!IsInline() ==> words[0] in heap.blocks && |heap.blocks[words[0]]| == 2 * size)
    }

    /** The block could not be had: the size promises one, and its address is null. */
    predicate IsWrecked()
      requires |words| == 2 * MAX_INLINE
      reads this
    {
      !IsInline() && words[0] == 0
    }

    /** All a container ever is. A wrecked one can still be assigned to, moved from and destroyed. */
    ghost predicate Live()
      reads this, heap
    {
      heap.Valid() && |words| == 2 * MAX_INLINE && (IsWrecked() || Valid())
    }

    /** The heap blocks this container is responsible for. */
    ghost function Owned(): set<int>
      requires |words| == 2 * MAX_INLINE
      reads this
    {
      if IsInline() || IsWrecked() then {} else {words[0]}
    }

    ghost function Content(): Content
      requires Live()
      reads this, heap
    {
      if IsWrecked() then Wrecked(size) else Held(Sizes(), Strides())
    }

    function Sizes(): (s: seq<int>)
      requires Valid()
      reads this, heap
      ensures |s| == size
    {
      if IsInline() then words[..size] else heap.blocks[words[0]][..size]
    }

    function Strides(): (s: seq<int>)
      requires Valid()
      reads this, heap
      ensures |s| == size
    {
      if IsInline() then words[MAX_INLINE..MAX_INLINE + size] else heap.blocks[words[0]][size..2 * size]
    }

    /** One dimension of size zero and stride one. */
    constructor (heap: Heap)
      requires heap.Valid()
      ensures Valid() && this.heap == heap && size == 1 && Sizes() == [0] && Strides() == [1] && Owned() == {}
      ensures words == [0, 0, 0, 0, 0, 1, 0, 0, 0, 0]
    {
      this.heap := heap;
      size := 1;
      words := [0, 0, 0, 0, 0, 1, 0, 0, 0, 0];
    }

    /** The copy constructor; it fails, constructing nothing usable, when no block can be had. */
    constructor Copy(rhs: SizesAndStrides)
      requires rhs.Valid()
      modifies rhs.heap
      ensures heap == rhs.heap && |words| == 2 * MAX_INLINE && rhs.Valid()
      ensures rhs.Sizes() == old(rhs.Sizes()) && rhs.Strides() == old(rhs.Strides())
      ensures size == rhs.size && heap.refused == old(rhs.heap.refused) + if IsWrecked() then 1 else 0
      ensures IsWrecked() ==> rhs.size > MAX_INLINE && heap.Valid() && heap.blocks == old(rhs.heap.blocks)
      ensures !IsWrecked() ==> Valid() && Sizes() == rhs.Sizes() && Strides() == rhs.Strides() && Owned() !! rhs.Owned()
      ensures !IsWrecked() ==>
                heap.blocks.Keys == old(rhs.heap.blocks).Keys + Owned() && Owned() !! old(rhs.heap.blocks).Keys
      ensures forall p :: p in old(rhs.heap.blocks) ==> p in heap.blocks && heap.blocks[p] == old(rhs.heap.blocks)[p]
    {
      heap := rhs.heap;
      size := rhs.size;
      words := rhs.words;
      new;
      if !IsInline() {
        var p := heap.Malloc(2 * size);
        words := words[0 := p];
        if p != 0 {
          heap.Store(p, 0, heap.blocks[rhs.words[0]]);
        }
      }
    }

    /** The destructor. */
    method Destroy()
      requires Live()
      modifies heap`blocks
      ensures heap.Valid() && heap.blocks == old(heap.blocks) - Owned()
    {
      if !IsInline() {
        heap.Free(words[0]);
      }
    }

    /**
     * `resize`. The common prefix of sizes and of strides is kept and the rest is zero, whichever
     * storage the container comes from and goes to. It fails only when no block can be had: from inline
     * storage that leaves the container as it was, from a block it loses the block. Resizing to the
     * present size touches nothing.
     */
    method Resize(newSize: nat) returns (ok: bool)
      requires Live() && (Valid() || newSize == size)
      modifies this, heap
      ensures Live() && heap.refused == old(heap.refused) + if ok then 0 else 1
      ensures newSize == old(size) ==> ok && unchanged(this) && unchanged(heap)
      ensures newSize != old(size) ==> Content() == ResizedContent(old(Content()), newSize, ok)
      ensures ok ==> Traded(old(heap.blocks), heap.blocks, old(Owned()), Owned())
      ensures !ok ==> newSize > MAX_INLINE && Owned() == {} && Traded(old(heap.blocks), heap.blocks, old(Owned()), old(Owned()))
    {
      var oldSize := size;
      if newSize == oldSize {
        return true;
      }
      if newSize <= MAX_INLINE && IsInline() {
        ResizeInline(newSize);
        ok := true;
      } else {
        ok := ResizeSlowPath(newSize, oldSize);
      }
    }

    /** Inline to inline: growing zeroes the new entries, shrinking leaves the dropped ones behind. */
    method ResizeInline(newSize: nat)
      requires Valid() && IsInline() && newSize <= MAX_INLINE
      modifies this
      ensures Valid() && size == newSize && Owned() == {}
      ensures Sizes() == Resized(old(Sizes()), newSize) && Strides() == Resized(old(Strides()), newSize)
      ensures newSize <= old(size) ==> words == old(words)
    {
      if size < newSize {
        words := Copied(words, size, Zeroes(newSize - size));
        words := Copied(words, MAX_INLINE + size, Zeroes(newSize - size));
      }
      size := newSize;
      assert Sizes() == Resized(old(Sizes()), newSize) && Strides() == Resized(old(Strides()), newSize);
    }

    method ResizeSlowPath(newSize: nat, oldSize: nat) returns (ok: bool)
      requires Valid() && oldSize == size != newSize && (newSize > MAX_INLINE || !IsInline())
      modifies this, heap
      ensures Live() && heap.refused == old(heap.refused) + if ok then 0 else 1
      ensures Content() == ResizedContent(old(Content()), newSize, ok)
      ensures ok ==> Traded(old(heap.blocks), heap.blocks, old(Owned()), Owned())
      ensures !ok ==> newSize > MAX_INLINE && Owned() == {} && Traded(old(heap.blocks), heap.blocks, old(Owned()), old(Owned()))
    {
      if newSize <= MAX_INLINE {
        ToInline(newSize, oldSize);
        ok := true;
      } else if IsInline() {
        ok := ToBlock(newSize, oldSize);
      } else if oldSize < newSize {
        ok := GrowBlock(newSize, oldSize);
      } else {
        ok := ShrinkBlock(newSize, oldSize);
      }
    }

    /** From a block into the words that held its address; the address is kept aside to free the block. */
    method ToInline(newSize: nat, oldSize: nat)
      requires Valid() && newSize <= MAX_INLINE < oldSize == size
      modifies this, heap`blocks
      ensures Valid() && size == newSize && Traded(old(heap.blocks), heap.blocks, old(Owned()), Owned())
      ensures Sizes() == Resized(old(Sizes()), newSize) && Strides() == Resized(old(Strides()), newSize)
    {
      hide Copied, Resized;
      var temp := words[0];
      var block := heap.blocks[temp];
      words := Copied(words, 0, block[..MAX_INLINE]);
      words := Copied(words, MAX_INLINE, block[oldSize..oldSize + MAX_INLINE]);
      heap.Free(temp);
      size := newSize;
      InlineWords(old(words), block, oldSize, newSize);
    }

    /** Copies both inline parts into a block and zeroes the gaps. */
    method FillBlock(p: int, newSize: nat, oldSize: nat)
      requires Valid() && oldSize == size <= MAX_INLINE < newSize && p in heap.blocks && |heap.blocks[p]| == 2 * newSize
      modifies heap`blocks
      ensures heap.Valid() && p in heap.blocks && heap.blocks == old(heap.blocks)[p := heap.blocks[p]]
      ensures |heap.blocks[p]| == 2 * newSize
      ensures heap.blocks[p][..newSize] == Resized(words[..oldSize], newSize)
      ensures heap.blocks[p][newSize..2 * newSize] == Resized(words[MAX_INLINE..MAX_INLINE + oldSize], newSize)
    {
      hide Copied, Resized, Zeroes;
      ghost var raw := heap.blocks[p];
      heap.Store(p, 0, words[..oldSize]);
      heap.Store(p, oldSize, Zeroes(newSize - oldSize));
      heap.Store(p, newSize, words[MAX_INLINE..MAX_INLINE + oldSize]);
      heap.Store(p, newSize + oldSize, Zeroes(newSize - oldSize));
      BlockWords(raw, words, oldSize, newSize);
    }

    /** From inline storage into a new block; the words are read before the address overwrites the first of them. */
    method ToBlock(newSize: nat, oldSize: nat) returns (ok: bool)
      requires Valid() && oldSize == size <= MAX_INLINE < newSize
      modifies this, heap
      ensures Valid() && heap.refused == old(heap.refused) + if ok then 0 else 1
      ensures ok ==> size == newSize && Traded(old(heap.blocks), heap.blocks, old(Owned()), Owned())
      ensures ok ==> Sizes() == Resized(old(Sizes()), newSize) && Strides() == Resized(old(Strides()), newSize)
      ensures !ok ==> size == old(size) && words == old(words) && heap.blocks == old(heap.blocks)
    {
      hide Copied, Resized, Zeroes;
      var temp := heap.Malloc(2 * newSize);
      if temp == 0 {
        return false;
      }
      FillBlock(temp, newSize, oldSize);
      words := words[0 := temp];
      size := newSize;
      return true;
    }

    /** Reallocates the block, if there is one; a failure loses it. */
    method ResizeBlock(newSize: nat) returns (ok: bool)
      requires Live() && !IsInline()
      modifies this`words, heap
      ensures heap.Valid() && |words| == 2 * MAX_INLINE && heap.refused == old(heap.refused) + if ok then 0 else 1
      ensures !ok ==> heap.blocks == old(heap.blocks) && words == old(words)[0 := 0]
      ensures ok ==> words[0] in heap.blocks && |heap.blocks[words[0]]| == 2 * newSize
      ensures ok ==> Traded(old(heap.blocks), heap.blocks, old(Owned()), Owned())
      ensures ok && !old(IsWrecked()) ==>
                forall i :: 0 <= i < 2 * newSize && i < 2 * size ==> heap.blocks[words[0]][i] == old(heap.blocks[words[0]])[i]
    {
      var p := heap.Realloc(words[0], 2 * newSize);
      words := words[0 := p];
      return p != 0;
    }

    /** Moves the strides up in a grown block and zeroes the gaps. */
    method SpreadBlock(p: int, ghost was: seq<int>, newSize: nat, oldSize: nat)
      requires heap.Valid() && oldSize < newSize && p in heap.blocks && |heap.blocks[p]| == 2 * newSize && |was| == 2 * oldSize
      requires forall i :: 0 <= i < 2 * newSize && i < 2 * oldSize ==> heap.blocks[p][i] == was[i]
      modifies heap`blocks
      ensures heap.Valid() && p in heap.blocks && heap.blocks == old(heap.blocks)[p := heap.blocks[p]]
      ensures |heap.blocks[p]| == 2 * newSize
      ensures heap.blocks[p][..newSize] == Resized(was[..oldSize], newSize)
      ensures heap.blocks[p][newSize..2 * newSize] == Resized(was[oldSize..2 * oldSize], newSize)
    {
      hide Copied, Resized, Zeroes;
      ghost var grown := heap.blocks[p];
      heap.Store(p, newSize, heap.blocks[p][oldSize..2 * oldSize]);
      heap.Store(p, oldSize, Zeroes(newSize - oldSize));
      heap.Store(p, newSize + oldSize, Zeroes(newSize - oldSize));
      GrownWords(was, grown, oldSize, newSize);
    }

    /** Room first, then the strides move up and the gaps are zeroed. */
    method GrowBlock(newSize: nat, oldSize: nat) returns (ok: bool)
      requires Valid() && MAX_INLINE < oldSize == size < newSize
      modifies this, heap
      ensures heap.Valid() && |words| == 2 * MAX_INLINE && heap.refused == old(heap.refused) + if ok then 0 else 1
      ensures ok ==> Valid() && size == newSize && Traded(old(heap.blocks), heap.blocks, old(Owned()), Owned())
      ensures ok ==> Sizes() == Resized(old(Sizes()), newSize) && Strides() == Resized(old(Strides()), newSize)
      ensures !ok ==> size == old(size) && heap.blocks == old(heap.blocks) && words[0] == 0
    {
      hide Copied, Resized, Zeroes;
      ghost var was := heap.blocks[words[0]];
      ok := ResizeBlock(newSize);
      if !ok {
        return;
      }
      var p := words[0];
      SpreadBlock(p, was, newSize, oldSize);
      size := newSize;
    }

    /** The strides move down first, while they still fit, then the block shrinks. */
    method ShrinkBlock(newSize: nat, oldSize: nat) returns (ok: bool)
      requires Valid() && MAX_INLINE < newSize < oldSize == size
      modifies this, heap
      ensures heap.Valid() && |words| == 2 * MAX_INLINE && heap.refused == old(heap.refused) + if ok then 0 else 1
      ensures ok ==> Valid() && size == newSize && Traded(old(heap.blocks), heap.blocks, old(Owned()), Owned())
      ensures ok ==> Sizes() == Resized(old(Sizes()), newSize) && Strides() == Resized(old(Strides()), newSize)
      ensures !ok ==> size == old(size) && Traded(old(heap.blocks), heap.blocks, old(Owned()), old(Owned())) && words[0] == 0
    {
      hide Copied, Resized;
      var p := words[0];
      ghost var was := heap.blocks[p];
      heap.Store(p, newSize, heap.blocks[p][oldSize..oldSize + newSize]);
      ok := ResizeBlock(newSize);
      if !ok {
        return;
      }
      ghost var shrunk := heap.blocks[words[0]];
      size := newSize;
      ShrunkWords(was, shrunk, oldSize, newSize);
    }

    /** The move constructor: takes over the block, if any, and leaves `rhs` empty. */
    constructor Move(rhs: SizesAndStrides)
      requires rhs.Live()
      modifies rhs
      ensures heap == rhs.heap && Live() && rhs.Valid() && rhs.size == 0 && rhs.Owned() == {}
      ensures Content() == old(rhs.Content()) && Owned() == old(rhs.Owned())
    {
      heap, size, words := rhs.heap, rhs.size, rhs.words;
      new;
      if !IsInline() {
        rhs.words := rhs.words[0 := 0];
      }
      rhs.size := 0;
    }

    /**
     * Copy assignment. A failure wrecks a container that had a block and loses the block; in an inline
     * one the null address overwrites the first size.
     */
    method CopyFrom(rhs: SizesAndStrides) returns (ok: bool)
      requires Live() && (this == rhs || (rhs.Valid() && heap == rhs.heap && Owned() !! rhs.Owned()))
      modifies this, heap
      ensures heap.Valid() && |words| == 2 * MAX_INLINE && heap.refused == old(heap.refused) + if ok then 0 else 1
      ensures ok ==> Live() && rhs.Live() && (this != rhs ==> Owned() !! rhs.Owned())
      ensures ok ==> Traded(old(heap.blocks), heap.blocks, old(Owned()), Owned())
      ensures ok ==> rhs.Content() == Content() == old(rhs.Content())
      ensures this == rhs ==> ok && unchanged(this) && unchanged(heap)
      ensures !ok ==> rhs.size > MAX_INLINE && size == old(size) && heap.blocks == old(heap.blocks) && words == old(words)[0 := 0]
    {
      if this == rhs {
        return true;
      }
      if rhs.IsInline() {
        if !IsInline() {
          heap.Free(words[0]);
        }
        words := rhs.words;
        size := rhs.size;
        return true;
      }
      ok := CopyBlock(rhs);
    }

    /** Copies the block of another container into a new or resized block. */
    method CopyBlock(rhs: SizesAndStrides) returns (ok: bool)
      requires Live() && rhs.Valid() && heap == rhs.heap && this != rhs && !rhs.IsInline() && Owned() !! rhs.Owned()
      modifies this, heap
      ensures heap.Valid() && |words| == 2 * MAX_INLINE && heap.refused == old(heap.refused) + if ok then 0 else 1
      ensures ok ==> Valid() && rhs.Valid() && Traded(old(heap.blocks), heap.blocks, old(Owned()), Owned()) && Owned() !! rhs.Owned()
      ensures ok ==> rhs.Sizes() == old(rhs.Sizes()) && rhs.Strides() == old(rhs.Strides())
      ensures ok ==> Sizes() == old(rhs.Sizes()) && Strides() == old(rhs.Strides())
      ensures !ok ==> size == old(size) && heap.blocks == old(heap.blocks) && words == old(words)[0 := 0]
    {
      hide Copied;
      ghost var theirs := heap.blocks[rhs.words[0]];
      if IsInline() {
        var p := heap.Malloc(2 * rhs.size);
        words := words[0 := p];
        ok := p != 0;
      } else {
        ok := ResizeBlock(rhs.size);
      }
      if !ok {
        return;
      }
      var p := words[0];
      assert rhs.words[0] != p && heap.blocks[rhs.words[0]] == theirs;
      CopiedWhole(heap.blocks[p], theirs);
      heap.Store(p, 0, heap.blocks[rhs.words[0]]);
      size := rhs.size;
      assert heap.blocks[p] == theirs;
    }

    /** Move assignment: never fails. */
    method MoveFrom(rhs: SizesAndStrides)
      requires Live() && rhs.Live() && heap == rhs.heap && (this != rhs ==> Owned() !! rhs.Owned())
      modifies this, rhs, heap`blocks
      ensures Live() && rhs.Live()
      ensures Content() == old(rhs.Content()) && Owned() == old(rhs.Owned())
      ensures this != rhs ==> rhs.Valid() && rhs.size == 0 && heap.blocks == old(heap.blocks) - old(Owned())
      ensures this == rhs ==> unchanged(this) && unchanged(heap)
    {
      if this == rhs {
        return;
      }
      if !IsInline() {
        heap.Free(words[0]);
      }
      if rhs.IsInline() {
        words := rhs.words;
      } else {
        words := words[0 := rhs.words[0]];
        rhs.words := rhs.words[0 := 0];
      }
      size := rhs.size;
      rhs.size := 0;
    }

    /** `operator==`: compares all ten inline words, or the whole blocks. */
    method Equals(other: SizesAndStrides) returns (same: bool)
      requires Valid() && other.Valid() && heap == other.heap
      ensures same ==> Sizes() == other.Sizes() && Strides() == other.Strides()
      ensures same <==> size == other.size
                        && if IsInline() then words == other.words
                           else Sizes() == other.Sizes() && Strides() == other.Strides()
    {
      if size != other.size {
        return false;
      }
      if IsInline() {
        return words == other.words;
      }
      var a, b := heap.blocks[words[0]], heap.blocks[other.words[0]];
      same := a == b;
      assert a == a[..size] + a[size..2 * size] && b == b[..size] + b[size..2 * size];
    }

    method SetSize(i: nat, value: int)
      requires Valid() && i < size
      modifies this, heap`blocks
      ensures Valid() && size == old(size) && Owned() == old(Owned()) && heap.blocks.Keys == old(heap.blocks).Keys
      ensures Sizes() == old(Sizes())[i := value] && Strides() == old(Strides())
      ensures IsInline() ==> words == old(words)[i := value] && heap.blocks == old(heap.blocks)
      ensures Traded(old(heap.blocks), heap.blocks, old(Owned()), Owned())
    {
      if IsInline() {
        words := words[i := value];
      } else {
        heap.Store(words[0], i, [value]);
      }
    }

    method SetStride(i: nat, value: int)
      requires Valid() && i < size
      modifies this, heap`blocks
      ensures Valid() && size == old(size) && Owned() == old(Owned())
      ensures Sizes() == old(Sizes()) && Strides() == old(Strides())[i := value]
      ensures Traded(old(heap.blocks), heap.blocks, old(Owned()), Owned())
    {
      if IsInline() {
        words := words[MAX_INLINE + i := value];
      } else {
        heap.Store(words[0], size + i, [value]);
      }
    }
  }

  /**
   * Equality is stricter than equal contents: what a dimension left behind when it was dropped still
   * counts.
   */
  method StaleWordsCount(heap: Heap) returns (a: SizesAndStrides, b: SizesAndStrides, same: bool)
    requires heap.Valid()
    modifies heap
    ensures a.Valid() && b.Valid() && a.Sizes() == b.Sizes() && a.Strides() == b.Strides() && !same
  {
    a := new SizesAndStrides(heap);
    b := new SizesAndStrides(heap);
    b.ResizeInline(2);
    b.SetSize(1, 7);
    ghost var stale := b.words;
    b.ResizeInline(1);
    assert stale[1] == 7 && b.words == stale && a.words[1] == 0;
    same := a.Equals(b);
  }
}
