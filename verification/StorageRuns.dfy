/**
 * Runs of container operations (sizes_and_strides.h): whatever is constructed, copied, moved, resized,
 * written and destroyed, in whatever order and whichever allocations fail, every block has one owner.
 */
module StorageRuns {
  import opened SizeStorage

  /** An operation on named containers. The first four introduce or end a name, the others change one or two. */
  datatype Op =
    | Make(a: nat)
    | CopyMake(a: nat, b: nat)
    | MoveMake(a: nat, b: nat)
    | Drop(a: nat)
    | Assign(a: nat, b: nat)
    | MoveAssign(a: nat, b: nat)
    | Resize(a: nat, size: nat)
    | Write(a: nat, part: Part, i: nat, value: int)

  /** Sizes or strides. */
  datatype Part = SizePart | StridePart

  // ----- what the operations mean -----

  type State = map<nat, Content>

  function SizeOf(c: Content): nat {
    if c.Held? then |c.sizes| else c.size
  }

  /** A copy assignment that got no block: a block is lost, an inline container has its first size overwritten. */
  function Damaged(c: Content): Content {
    if c.Held? && |c.sizes| <= MAX_INLINE then Held(if |c.sizes| == 0 then [] else c.sizes[0 := 0], c.strides)
    else Wrecked(SizeOf(c))
  }

  function PartOf(c: Content, part: Part): seq<int>
    requires c.Held?
  {
    if part.SizePart? then c.sizes else c.strides
  }

  function Written(c: Content, part: Part, i: nat, value: int): Content
    requires c.Held? && i < |PartOf(c, part)|
  {
    if part.SizePart? then Held(c.sizes[i := value], c.strides) else Held(c.sizes, c.strides[i := value])
  }

  /** The names exist as they should, and no content is read that is not there. */
  predicate Defined(s: State, op: Op) {
    match op
    case Make(a) => a !in s
    case CopyMake(a, b) => a !in s && b in s && s[b].Held?
    case MoveMake(a, b) => a !in s && b in s
    case Drop(a) => a in s
    case Assign(a, b) => a in s && b in s && (a == b || s[b].Held?)
    case MoveAssign(a, b) => a in s && b in s
    case Resize(a, n) => a in s && (s[a].Held? || s[a].size == n)
    case Write(a, part, i, _) => a in s && s[a].Held? && i < |PartOf(s[a], part)|
  }

  /** Operations that need a new or larger block. */
  predicate MayFail(s: State, op: Op)
    requires Defined(s, op)
  {
    match op
    case CopyMake(_, b) => HasBlock(s[b])
    case Assign(a, b) => a != b && HasBlock(s[b])
    case Resize(a, n) => n > MAX_INLINE && n != SizeOf(s[a])
    case _ => false
  }

  /** The contents after an operation that succeeded or not: containers are values, none affects another. */
  function Next(s: State, op: Op, ok: bool): State
    requires Defined(s, op)
  {
    match op
    case Make(a) => s[a := Held([0], [1])]
    case CopyMake(a, b) => if ok then s[a := s[b]] else s
    case MoveMake(a, b) => s[a := s[b]][b := Held([], [])]
    case Drop(a) => s - {a}
    case Assign(a, b) => if a == b then s else s[a := if ok then s[b] else Damaged(s[a])]
    case MoveAssign(a, b) => if a == b then s else s[a := s[b]][b := Held([], [])]
    case Resize(a, n) =>
      if n == SizeOf(s[a]) then s else s[a := ResizedContent(s[a], n, ok)]
    case Write(a, part, i, value) => s[a := Written(s[a], part, i, value)]
  }

  /** A failed reallocation loses the block it was to replace. */
  function Loses(s: State, op: Op, ok: bool): nat
    requires Defined(s, op)
  {
    if !ok && (op.Assign? || op.Resize?) && HasBlock(s[op.a]) then 1 else 0
  }

  /** Every operation of the program is defined where it is reached. */
  predicate AllDefined(s: State, ops: seq<Op>, oks: seq<bool>)
    requires |oks| == |ops|
  {
    |ops| == 0 || (
      var k := |ops| - 1;
      AllDefined(s, ops[..k], oks[..k]) && Defined(After(s, ops[..k], oks[..k]), ops[k])
      && (!oks[k] ==> MayFail(After(s, ops[..k], oks[..k]), ops[k])))
  }

  /** The contents after the program, given which operations succeeded. */
  function After(s: State, ops: seq<Op>, oks: seq<bool>): State
    requires |oks| == |ops|
  {
    if |ops| == 0 then s
    else
      var k := |ops| - 1;
      var before := After(s, ops[..k], oks[..k]);
      if Defined(before, ops[k]) then Next(before, ops[k], oks[k]) else before
  }

  function TotalLost(s: State, ops: seq<Op>, oks: seq<bool>): nat
    requires |oks| == |ops|
  {
    if |ops| == 0 then 0
    else
      var k := |ops| - 1;
      var before := After(s, ops[..k], oks[..k]);
      TotalLost(s, ops[..k], oks[..k]) + if Defined(before, ops[k]) then Loses(before, ops[k], oks[k]) else 0
  }

  /** Nothing is lost when nothing fails. */
  lemma {:induction false} NothingFailsNothingLost(s: State, ops: seq<Op>, oks: seq<bool>)
    requires |oks| == |ops| && forall i :: 0 <= i < |oks| ==> oks[i]
    ensures TotalLost(s, ops, oks) == 0
  {
    if |ops| > 0 {
      NothingFailsNothingLost(s, ops[..|ops| - 1], oks[..|ops| - 1]);
    }
  }

  /**
   * When a failed operation leaves every content as it was: always for a construction, never where there
   * was a block to replace, and for a copy assignment to an inline container only if there is no first
   * size for the null address to overwrite.
   */
  lemma FailureKeepsWhen(s: State, op: Op)
    requires Defined(s, op) && MayFail(s, op)
    ensures Next(s, op, false) == s <==>
              || op.CopyMake?
              || (!HasBlock(s[op.a]) && (op.Resize? || s[op.a].Wrecked? || s[op.a].sizes == [] || s[op.a].sizes[0] == 0))
  {
    if !op.CopyMake? {
      var t := Next(s, op, false);
      assert t == s <==> t[op.a] == s[op.a];
      if op.Assign? && s[op.a].Held? && !HasBlock(s[op.a]) && s[op.a].sizes != [] {
        assert t[op.a].sizes[0] == 0;
        assert s[op.a].sizes[0] == 0 ==> s[op.a].sizes[0 := 0] == s[op.a].sizes;
      }
    }
  }

  // ----- ownership -----

  type Blocks = map<int, seq<int>>

  /** A container's own words, as distinct from the block it may point to. */
  datatype Rep = Rep(size: nat, words: seq<int>)

  predicate Points(r: Rep) {
    r.size > MAX_INLINE && |r.words| > 0 && r.words[0] != 0
  }

  function OwnedOf(r: Rep): set<int> {
    if Points(r) then {r.words[0]} else {}
  }

  predicate LiveIn(r: Rep, blocks: Blocks) {
    |r.words| == 2 * MAX_INLINE && (Points(r) ==> r.words[0] in blocks && |blocks[r.words[0]]| == 2 * r.size)
  }

  function ContentIn(r: Rep, blocks: Blocks): Content
    requires LiveIn(r, blocks)
  {
    if r.size <= MAX_INLINE then Held(r.words[..r.size], r.words[MAX_INLINE..MAX_INLINE + r.size])
    else if !Points(r) then Wrecked(r.size)
    else var b := blocks[r.words[0]]; Held(b[..r.size], b[r.size..2 * r.size])
  }

  type Reps = map<nat, Rep>

  function OwnedBy(reps: Reps, k: nat): set<int> {
    if k in reps then OwnedOf(reps[k]) else {}
  }

  ghost predicate HasOwner(reps: Reps, p: int) {
    exists k :: p in OwnedBy(reps, k)
  }

  ghost predicate AllLive(blocks: Blocks, reps: Reps) {
    forall k :: k in reps ==> LiveIn(reps[k], blocks)
  }

  /** Every block belongs to exactly one container, except for those lost, which belong to none. */
  ghost predicate Exclusive(blocks: Blocks, reps: Reps, lost: set<int>) {
    && AllLive(blocks, reps)
    && (forall j, k :: j != k ==> OwnedBy(reps, j) !! OwnedBy(reps, k))
    && (forall k :: OwnedBy(reps, k) !! lost)
    && lost <= blocks.Keys
    && (forall p :: p in blocks ==> p in lost || HasOwner(reps, p))
  }

  ghost function Contents(blocks: Blocks, reps: Reps): State
    requires AllLive(blocks, reps)
  {
    map k | k in reps :: ContentIn(reps[k], blocks)
  }

  /** All names but `a` and `b` still denote the same words. */
  ghost predicate OthersSame(reps: Reps, reps': Reps, a: nat, b: nat) {
    forall k :: k != a && k != b ==> (k in reps' <==> k in reps) && (k in reps ==> reps'[k] == reps[k])
  }

  /** Two containers at most trade their blocks, losing some; what they own in the end is theirs alone. */
  ghost predicate Exchange(blocks: Blocks, reps: Reps, blocks': Blocks, reps': Reps, gone: set<int>, a: nat, b: nat) {
    && OthersSame(reps, reps', a, b)
    && (a in reps' ==> LiveIn(reps'[a], blocks')) && (b in reps' ==> LiveIn(reps'[b], blocks'))
    && (a != b ==> OwnedBy(reps', a) !! OwnedBy(reps', b))
    && OwnedBy(reps', a) + OwnedBy(reps', b) !! gone
    && gone <= OwnedBy(reps, a) + OwnedBy(reps, b)
    && Traded(blocks, blocks', OwnedBy(reps, a) + OwnedBy(reps, b), OwnedBy(reps', a) + OwnedBy(reps', b) + gone)
  }

  /** A container nobody touched keeps its block and its content. */
  lemma UntouchedStays(
    blocks: Blocks, reps: Reps, lost: set<int>, blocks': Blocks, reps': Reps, gone: set<int>, a: nat, b: nat, k: nat)
    requires Exclusive(blocks, reps, lost) && Exchange(blocks, reps, blocks', reps', gone, a, b) && k != a && k != b
    ensures OwnedBy(reps', k) == OwnedBy(reps, k) && OwnedBy(reps, k) !! OwnedBy(reps', a) + OwnedBy(reps', b) + gone
    ensures k in reps' <==> k in reps
    ensures k in reps ==> LiveIn(reps[k], blocks) && LiveIn(reps'[k], blocks')
    ensures k in reps ==> ContentIn(reps'[k], blocks') == ContentIn(reps[k], blocks)
  {
    if k in reps {
      assert OwnedBy(reps, k) !! OwnedBy(reps, a) && OwnedBy(reps, k) !! OwnedBy(reps, b);
      assert forall p :: p in OwnedBy(reps, k) ==> p in blocks;
    }
    hide HasOwner;
  }

  /** What was lost stays lost, and every live block still has an owner or is lost. */
  lemma StillCovered(
    blocks: Blocks, reps: Reps, lost: set<int>, blocks': Blocks, reps': Reps, gone: set<int>, a: nat, b: nat)
    requires Exclusive(blocks, reps, lost) && Exchange(blocks, reps, blocks', reps', gone, a, b)
    ensures lost + gone <= blocks'.Keys && lost !! OwnedBy(reps', a) + OwnedBy(reps', b) + gone
    ensures forall p :: p in blocks' ==> p in lost + gone || HasOwner(reps', p)
  {
    assert lost !! OwnedBy(reps, a) + OwnedBy(reps, b);
    forall p | p in blocks' && p !in lost + gone ensures HasOwner(reps', p) {
      if p in OwnedBy(reps', a) || p in OwnedBy(reps', b) {
      } else {
        var k :| p in OwnedBy(reps, k);
        UntouchedStays(blocks, reps, lost, blocks', reps', gone, a, b, k);
        assert p in OwnedBy(reps', k);
      }
    }
  }

  lemma StaysLive(
    blocks: Blocks, reps: Reps, lost: set<int>, blocks': Blocks, reps': Reps, gone: set<int>, a: nat, b: nat, k: nat)
    requires Exclusive(blocks, reps, lost) && Exchange(blocks, reps, blocks', reps', gone, a, b)
    ensures k in reps' ==> LiveIn(reps'[k], blocks')
    ensures OwnedBy(reps', k) !! lost + gone
  {
    if k != a && k != b {
      UntouchedStays(blocks, reps, lost, blocks', reps', gone, a, b, k);
    }
    StillCovered(blocks, reps, lost, blocks', reps', gone, a, b);
    hide HasOwner, LiveIn, OwnedOf, Traded;
  }

  lemma StayApart(
    blocks: Blocks, reps: Reps, lost: set<int>, blocks': Blocks, reps': Reps, gone: set<int>, a: nat, b: nat, j: nat, k: nat)
    requires Exclusive(blocks, reps, lost) && Exchange(blocks, reps, blocks', reps', gone, a, b) && j != k
    ensures OwnedBy(reps', j) !! OwnedBy(reps', k)
  {
    if j != a && j != b {
      UntouchedStays(blocks, reps, lost, blocks', reps', gone, a, b, j);
    }
    if k != a && k != b {
      UntouchedStays(blocks, reps, lost, blocks', reps', gone, a, b, k);
    }
    hide HasOwner, LiveIn, OwnedBy, Traded;
  }

  lemma ExclusiveIntro(blocks: Blocks, reps: Reps, lost: set<int>)
    requires forall k :: (k in reps ==> LiveIn(reps[k], blocks)) && OwnedBy(reps, k) !! lost
    requires forall j, k :: j != k ==> OwnedBy(reps, j) !! OwnedBy(reps, k)
    requires lost <= blocks.Keys && forall p :: p in blocks ==> p in lost || HasOwner(reps, p)
    ensures Exclusive(blocks, reps, lost)
  {
    hide HasOwner, LiveIn, OwnedBy;
  }

  /** An exchange between at most two containers keeps ownership exclusive and every other content the same. */
  lemma ExchangeKeeps(
    blocks: Blocks, reps: Reps, lost: set<int>, blocks': Blocks, reps': Reps, gone: set<int>, a: nat, b: nat)
    requires Exclusive(blocks, reps, lost) && Exchange(blocks, reps, blocks', reps', gone, a, b)
    ensures Exclusive(blocks', reps', lost + gone) && gone !! lost
    ensures forall k :: k in reps && k != a && k != b ==>
              && k in reps' && LiveIn(reps[k], blocks) && LiveIn(reps'[k], blocks')
              && ContentIn(reps'[k], blocks') == ContentIn(reps[k], blocks)
  {
    hide *;
    forall k | k in reps && k != a && k != b
      ensures k in reps' && LiveIn(reps[k], blocks) && LiveIn(reps'[k], blocks')
      ensures ContentIn(reps'[k], blocks') == ContentIn(reps[k], blocks)
    {
      UntouchedStays(blocks, reps, lost, blocks', reps', gone, a, b, k);
    }
    forall k ensures (k in reps' ==> LiveIn(reps'[k], blocks')) && OwnedBy(reps', k) !! lost + gone {
      StaysLive(blocks, reps, lost, blocks', reps', gone, a, b, k);
    }
    forall j, k | j != k ensures OwnedBy(reps', j) !! OwnedBy(reps', k) {
      StayApart(blocks, reps, lost, blocks', reps', gone, a, b, j, k);
    }
    StillCovered(blocks, reps, lost, blocks', reps', gone, a, b);
    ExclusiveIntro(blocks', reps', lost + gone);
  }

  // ----- one operation -----

  /** The other name an operation changes, if any. */
  function Second(op: Op): nat {
    if op.MoveMake? || op.MoveAssign? then op.b else op.a
  }

  lemma NextOthers(s: State, op: Op, ok: bool, k: nat)
    requires Defined(s, op) && k != op.a && k != Second(op)
    ensures k in Next(s, op, ok) <==> k in s
    ensures k in s ==> Next(s, op, ok)[k] == s[k]
  {
  }

  /** The operation did what it means, ownership is still exclusive, and what is lost is accounted for. */
  ghost predicate Done(
    op: Op, ok: bool, blocks: Blocks, reps: Reps, lost: set<int>, blocks': Blocks, reps': Reps, lost': set<int>)
  {
    && AllLive(blocks, reps) && Defined(Contents(blocks, reps), op)
    && Exclusive(blocks', reps', lost')
    && Contents(blocks', reps') == Next(Contents(blocks, reps), op, ok)
    && (!ok ==> MayFail(Contents(blocks, reps), op))
    && lost <= lost' && |lost'| == |lost| + Loses(Contents(blocks, reps), op, ok)
  }

  ghost predicate NameDone(t: State, blocks: Blocks, reps: Reps, n: nat) {
    (n in reps <==> n in t) && (n in reps ==> LiveIn(reps[n], blocks) && ContentIn(reps[n], blocks) == t[n])
  }

  lemma DoneIntro(
    op: Op, ok: bool, blocks: Blocks, reps: Reps, lost: set<int>, blocks': Blocks, reps': Reps, gone: set<int>)
    requires Exclusive(blocks, reps, lost) && Exchange(blocks, reps, blocks', reps', gone, op.a, Second(op))
    requires Defined(Contents(blocks, reps), op) && |gone| == Loses(Contents(blocks, reps), op, ok)
    requires !ok ==> MayFail(Contents(blocks, reps), op)
    requires NameDone(Next(Contents(blocks, reps), op, ok), blocks', reps', op.a)
    requires NameDone(Next(Contents(blocks, reps), op, ok), blocks', reps', Second(op))
    ensures Done(op, ok, blocks, reps, lost, blocks', reps', lost + gone)
  {
    var s, t := Contents(blocks, reps), Next(Contents(blocks, reps), op, ok);
    ExchangeKeeps(blocks, reps, lost, blocks', reps', gone, op.a, Second(op));
    forall k ensures NameDone(t, blocks', reps', k) {
      if k != op.a && k != Second(op) {
        NextOthers(s, op, ok, k);
        OthersAt(blocks, reps, blocks', reps', gone, op.a, Second(op), k);
      }
    }
    hide *;
    ContentsAre(t, blocks', reps');
    DisjointCount(lost, gone);
    DoneFrom(op, ok, blocks, reps, lost, blocks', reps', gone);
  }

  lemma OthersAt(blocks: Blocks, reps: Reps, blocks': Blocks, reps': Reps, gone: set<int>, a: nat, b: nat, k: nat)
    requires Exchange(blocks, reps, blocks', reps', gone, a, b) && k != a && k != b
    ensures k in reps' <==> k in reps
  {
  }

  lemma ContentsAre(t: State, blocks: Blocks, reps: Reps)
    requires forall k :: NameDone(t, blocks, reps, k)
    ensures AllLive(blocks, reps) && Contents(blocks, reps) == t
  {
    assert forall k :: k in reps ==> NameDone(t, blocks, reps, k);
    assert forall k :: k in t ==> NameDone(t, blocks, reps, k);
    hide LiveIn, ContentIn;
  }

  lemma DisjointCount(a: set<int>, b: set<int>)
    ensures a !! b ==> |a + b| == |a| + |b|
  {
  }

  lemma DoneFrom(
    op: Op, ok: bool, blocks: Blocks, reps: Reps, lost: set<int>, blocks': Blocks, reps': Reps, gone: set<int>)
    requires Exclusive(blocks, reps, lost) && Defined(Contents(blocks, reps), op)
    requires Exclusive(blocks', reps', lost + gone) && |lost + gone| == |lost| + Loses(Contents(blocks, reps), op, ok)
    requires !ok ==> MayFail(Contents(blocks, reps), op)
    requires Contents(blocks', reps') == Next(Contents(blocks, reps), op, ok)
    ensures Done(op, ok, blocks, reps, lost, blocks', reps', lost + gone)
  {
    hide AllLive, Defined, Next, Loses, MayFail, Contents, HasOwner, OwnedBy;
  }

  lemma ExchangeOne(blocks: Blocks, reps: Reps, blocks': Blocks, reps': Reps, gone: set<int>, a: nat)
    requires OthersSame(reps, reps', a, a) && (a in reps' ==> LiveIn(reps'[a], blocks'))
    requires gone <= OwnedBy(reps, a) && OwnedBy(reps', a) !! gone
    requires Traded(blocks, blocks', OwnedBy(reps, a), OwnedBy(reps', a) + gone)
    ensures Exchange(blocks, reps, blocks', reps', gone, a, a)
  {
    hide LiveIn, OwnedBy, OthersSame, Traded;
    var mine, mine' := OwnedBy(reps, a), OwnedBy(reps', a);
    assert mine + mine == mine && mine' + mine' == mine';
  }

  /** An operation that changes one name only. */
  lemma OneName(
    op: Op, ok: bool, blocks: Blocks, reps: Reps, lost: set<int>, blocks': Blocks, reps': Reps, gone: set<int>)
    requires Exclusive(blocks, reps, lost) && Defined(Contents(blocks, reps), op)
    requires Second(op) == op.a && OthersSame(reps, reps', op.a, op.a)
    requires gone <= OwnedBy(reps, op.a) && OwnedBy(reps', op.a) !! gone
    requires Traded(blocks, blocks', OwnedBy(reps, op.a), OwnedBy(reps', op.a) + gone)
    requires |gone| == Loses(Contents(blocks, reps), op, ok) && (!ok ==> MayFail(Contents(blocks, reps), op))
    requires NameDone(Next(Contents(blocks, reps), op, ok), blocks', reps', op.a)
    ensures Done(op, ok, blocks, reps, lost, blocks', reps', lost + gone)
  {
    assert op.a in reps' ==> LiveIn(reps'[op.a], blocks');
    ExchangeOne(blocks, reps, blocks', reps', gone, op.a);
    hide *;
    DoneIntro(op, ok, blocks, reps, lost, blocks', reps', gone);
  }

  /** What the content of a name says of the words behind it. */
  lemma ContentAt(blocks: Blocks, reps: Reps, lost: set<int>, k: nat)
    requires Exclusive(blocks, reps, lost)
    ensures AllLive(blocks, reps)
    ensures k in Contents(blocks, reps) <==> k in reps
    ensures k in reps ==> (
      && LiveIn(reps[k], blocks) && OwnedBy(reps, k) == OwnedOf(reps[k]) <= blocks.Keys
      && Contents(blocks, reps)[k] == ContentIn(reps[k], blocks)
      && SizeOf(ContentIn(reps[k], blocks)) == reps[k].size
      && (ContentIn(reps[k], blocks).Held? ==> |ContentIn(reps[k], blocks).strides| == reps[k].size)
      && (HasBlock(ContentIn(reps[k], blocks)) <==> Points(reps[k]))
      && (ContentIn(reps[k], blocks).Held? <==> reps[k].size <= MAX_INLINE || Points(reps[k]))
      && |OwnedOf(reps[k])| == if Points(reps[k]) then 1 else 0)
    ensures k !in reps ==> OwnedBy(reps, k) == {}
  {
    hide HasOwner;
  }

  lemma SameTraded(blocks: Blocks, own: set<int>)
    requires own <= blocks.Keys
    ensures Traded(blocks, blocks, own, own)
  {
  }

  lemma Others(reps: Reps, a: nat, r: Rep)
    ensures OthersSame(reps, reps[a := r], a, a) && OthersSame(reps, reps - {a}, a, a) && OthersSame(reps, reps, a, a)
    ensures OwnedBy(reps[a := r], a) == OwnedOf(r) && OwnedBy(reps - {a}, a) == {}
  {
    hide OwnedOf;
  }

  lemma NameIs(t: State, blocks: Blocks, reps: Reps, n: nat)
    requires n in reps && n in t && LiveIn(reps[n], blocks) && ContentIn(reps[n], blocks) == t[n]
    ensures NameDone(t, blocks, reps, n)
  {
  }

  lemma NameGone(t: State, blocks: Blocks, reps: Reps, n: nat)
    requires n !in reps && n !in t
    ensures NameDone(t, blocks, reps, n)
  {
  }

  lemma SetFacts(x: set<int>)
    ensures x + {} == x && {} + x == x && {} <= x && x !! {} && (x == {} ==> |x| == 0)
  {
  }

  lemma MakeMeans(s: State, op: Op)
    requires Defined(s, op) && op.Make?
    ensures Second(op) == op.a && op.a !in s && Next(s, op, true) == s[op.a := Held([0], [1])] && Loses(s, op, true) == 0
  {
  }

  lemma AfterMake(op: Op, blocks: Blocks, reps: Reps, lost: set<int>, reps': Reps, r: Rep)
    requires Exclusive(blocks, reps, lost) && Defined(Contents(blocks, reps), op)
    requires op.Make? && reps' == reps[op.a := r]
    requires OwnedOf(r) == {} && LiveIn(r, blocks) && ContentIn(r, blocks) == Held([0], [1])
    ensures Done(op, true, blocks, reps, lost, blocks, reps', lost)
  {
    hide *;
    ContentAt(blocks, reps, lost, op.a);
    var s := Contents(blocks, reps);
    MakeMeans(s, op);
    Others(reps, op.a, r);
    SetFacts({});
    SetFacts(lost);
    SameTraded(blocks, {});
    NameIs(Next(s, op, true), blocks, reps', op.a);
    OneName(op, true, blocks, reps, lost, blocks, reps', {});
  }

  lemma CopyMakeMeans(s: State, op: Op, ok: bool)
    requires Defined(s, op) && op.CopyMake?
    ensures Second(op) == op.a && op.a !in s && op.b in s && s[op.b].Held? && Loses(s, op, ok) == 0
    ensures Next(s, op, ok) == if ok then s[op.a := s[op.b]] else s
    ensures MayFail(s, op) <==> HasBlock(s[op.b])
  {
  }

  lemma AfterCopyMake(op: Op, ok: bool, blocks: Blocks, reps: Reps, lost: set<int>, blocks': Blocks, reps': Reps, r: Rep)
    requires Exclusive(blocks, reps, lost) && Defined(Contents(blocks, reps), op)
    requires op.CopyMake?
    requires ok ==> (
      && reps' == reps[op.a := r] && LiveIn(r, blocks')
      && op.b in Contents(blocks, reps) && ContentIn(r, blocks') == Contents(blocks, reps)[op.b]
      && Traded(blocks, blocks', {}, OwnedOf(r)))
    requires !ok ==> reps' == reps && blocks' == blocks && op.b in reps && reps[op.b].size > MAX_INLINE
    ensures Done(op, ok, blocks, reps, lost, blocks', reps', lost)
  {
    hide *;
    ContentAt(blocks, reps, lost, op.a);
    var s := Contents(blocks, reps);
    CopyMakeMeans(s, op, ok);
    ContentAt(blocks, reps, lost, op.b);
    Others(reps, op.a, r);
    SetFacts({});
    SetFacts(lost);
    if ok {
      SetFacts(OwnedOf(r));
      NameIs(Next(s, op, true), blocks', reps', op.a);
    } else {
      SameTraded(blocks, {});
      NameGone(s, blocks, reps, op.a);
    }
    OneName(op, ok, blocks, reps, lost, blocks', reps', {});
  }

  lemma DropMeans(s: State, op: Op)
    requires Defined(s, op) && op.Drop?
    ensures Second(op) == op.a && op.a in s && Next(s, op, true) == s - {op.a} && Loses(s, op, true) == 0
  {
  }

  lemma DropTraded(blocks: Blocks, own: set<int>)
    ensures Traded(blocks, blocks - own, own, {})
  {
  }

  lemma AfterDrop(op: Op, blocks: Blocks, reps: Reps, lost: set<int>, blocks': Blocks, reps': Reps)
    requires Exclusive(blocks, reps, lost) && Defined(Contents(blocks, reps), op)
    requires op.Drop? && op.a in reps && reps' == reps - {op.a} && blocks' == blocks - OwnedOf(reps[op.a])
    ensures Done(op, true, blocks, reps, lost, blocks', reps', lost)
  {
    hide *;
    ContentAt(blocks, reps, lost, op.a);
    var s := Contents(blocks, reps);
    DropMeans(s, op);
    Others(reps, op.a, reps[op.a]);
    SetFacts({});
    SetFacts(OwnedOf(reps[op.a]));
    SetFacts(lost);
    DropTraded(blocks, OwnedOf(reps[op.a]));
    NameGone(Next(s, op, true), blocks', reps', op.a);
    OneName(op, true, blocks, reps, lost, blocks', reps', {});
  }

  /** The words of a container whose block could not be had. */
  lemma WreckedWords(r: Rep, blocks: Blocks)
    requires LiveIn(r, blocks)
    ensures |r.words| > 0
    ensures var w := Rep(r.size, r.words[0 := 0]);
            && LiveIn(w, blocks) && OwnedOf(w) == {} && ContentIn(w, blocks) == Damaged(ContentIn(r, blocks))
  {
  }

  lemma AssignMeans(s: State, op: Op, ok: bool)
    requires Defined(s, op) && op.Assign?
    ensures Second(op) == op.a && op.a in s && op.b in s && (op.a != op.b ==> s[op.b].Held?)
    ensures Next(s, op, ok) == if op.a == op.b then s else s[op.a := if ok then s[op.b] else Damaged(s[op.a])]
    ensures Loses(s, op, ok) == if !ok && HasBlock(s[op.a]) then 1 else 0
    ensures MayFail(s, op) <==> op.a != op.b && HasBlock(s[op.b])
  {
    hide Damaged, HasBlock;
  }

  lemma AfterAssign(
    op: Op, ok: bool, blocks: Blocks, reps: Reps, lost: set<int>, blocks': Blocks, reps': Reps, r: Rep, gone: set<int>)
    requires Exclusive(blocks, reps, lost) && Defined(Contents(blocks, reps), op)
    requires op.Assign? && op.a in reps && op.b in reps && reps' == reps[op.a := r]
    requires op.a == op.b ==> ok && r == reps[op.a] && blocks' == blocks
    requires ok && op.a != op.b ==> (
      && LiveIn(r, blocks') && Traded(blocks, blocks', OwnedOf(reps[op.a]), OwnedOf(r))
      && LiveIn(reps[op.b], blocks) && ContentIn(r, blocks') == ContentIn(reps[op.b], blocks))
    requires !ok ==> (
      && op.a != op.b && reps[op.b].size > MAX_INLINE && blocks' == blocks
      && |reps[op.a].words| > 0 && r == Rep(reps[op.a].size, reps[op.a].words[0 := 0]))
    requires gone == if ok then {} else OwnedOf(reps[op.a])
    ensures Done(op, ok, blocks, reps, lost, blocks', reps', lost + gone)
  {
    hide *;
    ContentAt(blocks, reps, lost, op.a);
    var s := Contents(blocks, reps);
    AssignMeans(s, op, ok);
    ContentAt(blocks, reps, lost, op.b);
    Others(reps, op.a, r);
    SetFacts(OwnedOf(r));
    SetFacts(OwnedOf(reps[op.a]));
    SetFacts({});
    SameTraded(blocks, OwnedOf(reps[op.a]));
    WreckedWords(reps[op.a], blocks);
    NameIs(Next(s, op, ok), blocks', reps', op.a);
    OneName(op, ok, blocks, reps, lost, blocks', reps', gone);
  }

  lemma ResizeMeans(s: State, op: Op, ok: bool)
    requires Defined(s, op) && op.Resize?
    ensures Second(op) == op.a && op.a in s && (s[op.a].Held? || s[op.a].size == op.size) && op.a in Next(s, op, ok)
    ensures op.size == SizeOf(s[op.a]) ==> Next(s, op, ok) == s
    ensures op.size != SizeOf(s[op.a]) ==> s[op.a].Held? && Next(s, op, ok)[op.a] == ResizedContent(s[op.a], op.size, ok)
    ensures Loses(s, op, ok) == if !ok && HasBlock(s[op.a]) then 1 else 0
    ensures MayFail(s, op) <==> op.size > MAX_INLINE && op.size != SizeOf(s[op.a])
  {
    hide Resized;
  }

  lemma AfterResize(
    op: Op, ok: bool, blocks: Blocks, reps: Reps, lost: set<int>, blocks': Blocks, reps': Reps, r: Rep, gone: set<int>)
    requires Exclusive(blocks, reps, lost) && Defined(Contents(blocks, reps), op)
    requires op.Resize? && op.a in reps && reps' == reps[op.a := r]
    requires op.size == reps[op.a].size ==> ok && r == reps[op.a] && blocks' == blocks
    requires op.size != reps[op.a].size ==> (
      && LiveIn(reps[op.a], blocks) && ContentIn(reps[op.a], blocks).Held? && LiveIn(r, blocks')
      && ContentIn(r, blocks') == ResizedContent(ContentIn(reps[op.a], blocks), op.size, ok))
    requires ok ==> Traded(blocks, blocks', OwnedOf(reps[op.a]), OwnedOf(r))
    requires !ok ==> (
      && op.size > MAX_INLINE && OwnedOf(r) == {}
      && Traded(blocks, blocks', OwnedOf(reps[op.a]), OwnedOf(reps[op.a])))
    requires gone == if ok then {} else OwnedOf(reps[op.a])
    ensures Done(op, ok, blocks, reps, lost, blocks', reps', lost + gone)
  {
    hide *;
    ContentAt(blocks, reps, lost, op.a);
    var s := Contents(blocks, reps);
    ResizeMeans(s, op, ok);
    Others(reps, op.a, r);
    SetFacts(OwnedOf(r));
    SetFacts(OwnedOf(reps[op.a]));
    SetFacts({});
    NameIs(Next(s, op, ok), blocks', reps', op.a);
    OneName(op, ok, blocks, reps, lost, blocks', reps', gone);
  }

  lemma WriteMeans(s: State, op: Op)
    requires Defined(s, op) && op.Write?
    ensures Second(op) == op.a && op.a in s && s[op.a].Held? && op.i < |PartOf(s[op.a], op.part)| && Loses(s, op, true) == 0
    ensures Next(s, op, true) == s[op.a := Written(s[op.a], op.part, op.i, op.value)]
  {
  }

  lemma AfterWrite(op: Op, blocks: Blocks, reps: Reps, lost: set<int>, blocks': Blocks, reps': Reps, r: Rep)
    requires Exclusive(blocks, reps, lost) && Defined(Contents(blocks, reps), op)
    requires op.Write? && op.a in reps && reps' == reps[op.a := r]
    requires LiveIn(r, blocks') && Traded(blocks, blocks', OwnedOf(reps[op.a]), OwnedOf(r))
    requires LiveIn(reps[op.a], blocks) && ContentIn(reps[op.a], blocks).Held?
    requires op.i < |PartOf(ContentIn(reps[op.a], blocks), op.part)|
    requires ContentIn(r, blocks') == Written(ContentIn(reps[op.a], blocks), op.part, op.i, op.value)
    ensures Done(op, true, blocks, reps, lost, blocks', reps', lost)
  {
    hide *;
    ContentAt(blocks, reps, lost, op.a);
    var s := Contents(blocks, reps);
    WriteMeans(s, op);
    Others(reps, op.a, r);
    SetFacts(OwnedOf(r));
    SetFacts(OwnedOf(reps[op.a]));
    SetFacts(lost);
    NameIs(Next(s, op, true), blocks', reps', op.a);
    OneName(op, true, blocks, reps, lost, blocks', reps', {});
  }

  lemma MoveMeans(s: State, op: Op)
    requires Defined(s, op) && (op.MoveMake? || op.MoveAssign?)
    ensures Second(op) == op.b && op.b in s && (op.MoveMake? <==> op.a !in s) && Loses(s, op, true) == 0
    ensures op.a != op.b ==> Next(s, op, true) == s[op.a := s[op.b]][op.b := Held([], [])]
    ensures op.a == op.b ==> Next(s, op, true) == s
  {
  }

  lemma FreedTrade(blocks: Blocks, mine: set<int>, theirs: set<int>)
    requires mine !! theirs && theirs <= blocks.Keys
    ensures Traded(blocks, blocks - mine, mine + theirs, theirs)
  {
    assert (blocks - mine).Keys == blocks.Keys - (mine + theirs) + theirs;
  }

  lemma MovedTrade(blocks: Blocks, reps: Reps, lost: set<int>, blocks': Blocks, a: nat, b: nat)
    requires Exclusive(blocks, reps, lost) && a != b && blocks' == blocks - OwnedBy(reps, a)
    ensures Traded(blocks, blocks', OwnedBy(reps, a) + OwnedBy(reps, b), OwnedBy(reps, b))
  {
    hide *;
    ContentAt(blocks, reps, lost, b);
    OwnersApart(blocks, reps, lost, a, b);
    FreedTrade(blocks, OwnedBy(reps, a), OwnedBy(reps, b));
  }

  lemma OwnersApart(blocks: Blocks, reps: Reps, lost: set<int>, a: nat, b: nat)
    requires Exclusive(blocks, reps, lost) && a != b
    ensures OwnedBy(reps, a) !! OwnedBy(reps, b)
  {
    hide OwnedBy, HasOwner;
  }

  lemma ExchangeMoved(blocks: Blocks, reps: Reps, blocks': Blocks, reps': Reps, a: nat, b: nat, ra: Rep, rb: Rep)
    requires a != b && reps' == reps[a := ra][b := rb] && LiveIn(ra, blocks') && LiveIn(rb, blocks')
    requires OwnedOf(ra) == OwnedBy(reps, b) && OwnedOf(rb) == {}
    requires Traded(blocks, blocks', OwnedBy(reps, a) + OwnedBy(reps, b), OwnedBy(reps, b))
    ensures Exchange(blocks, reps, blocks', reps', {}, a, b)
  {
    assert OwnedBy(reps', a) == OwnedOf(ra) && OwnedBy(reps', b) == {};
    hide Traded, LiveIn, OwnedOf, OwnedBy;
    assert OwnedBy(reps', a) + OwnedBy(reps', b) + {} == OwnedBy(reps, b);
  }

  /** Both moves: the block of the one changes hands, that of the other is freed. */
  lemma AfterMove(op: Op, blocks: Blocks, reps: Reps, lost: set<int>, blocks': Blocks, reps': Reps, ra: Rep, rb: Rep)
    requires Exclusive(blocks, reps, lost) && Defined(Contents(blocks, reps), op)
    requires (op.MoveMake? || op.MoveAssign?) && op.a != op.b && op.b in reps && reps' == reps[op.a := ra][op.b := rb]
    requires blocks' == blocks - OwnedBy(reps, op.a) && LiveIn(ra, blocks') && LiveIn(rb, blocks')
    requires OwnedOf(ra) == OwnedOf(reps[op.b]) && OwnedOf(rb) == {}
    requires LiveIn(reps[op.b], blocks)
    requires ContentIn(ra, blocks') == ContentIn(reps[op.b], blocks) && ContentIn(rb, blocks') == Held([], [])
    ensures Done(op, true, blocks, reps, lost, blocks', reps', lost)
  {
    hide *;
    ContentAt(blocks, reps, lost, op.a);
    var s := Contents(blocks, reps);
    MoveMeans(s, op);
    ContentAt(blocks, reps, lost, op.b);
    MovedTrade(blocks, reps, lost, blocks', op.a, op.b);
    ExchangeMoved(blocks, reps, blocks', reps', op.a, op.b, ra, rb);
    SetFacts({});
    SetFacts(lost);
    NameIs(Next(s, op, true), blocks', reps', op.a);
    NameIs(Next(s, op, true), blocks', reps', op.b);
    DoneIntro(op, true, blocks, reps, lost, blocks', reps', {});
  }

  /** Moving a container to itself does nothing. */
  lemma AfterSelfMove(op: Op, blocks: Blocks, reps: Reps, lost: set<int>)
    requires Exclusive(blocks, reps, lost) && Defined(Contents(blocks, reps), op) && op.MoveAssign? && op.a == op.b
    ensures Done(op, true, blocks, reps, lost, blocks, reps, lost)
  {
    hide *;
    ContentAt(blocks, reps, lost, op.a);
    var s := Contents(blocks, reps);
    MoveMeans(s, op);
    Others(reps, op.a, reps[op.a]);
    SetFacts({});
    SetFacts(OwnedBy(reps, op.a));
    SetFacts(lost);
    SameTraded(blocks, OwnedBy(reps, op.a));
    NameIs(s, blocks, reps, op.a);
    OneName(op, true, blocks, reps, lost, blocks, reps, {});
  }

  // ----- the containers themselves -----

  type Slots = map<nat, SizesAndStrides>

  function RepOf(c: SizesAndStrides): Rep
    reads c
  {
    Rep(c.size, c.words)
  }

  function RepsOf(slots: Slots): (reps: Reps)
    reads slots.Values
    ensures reps.Keys == slots.Keys && forall k :: k in slots ==> reps[k] == RepOf(slots[k])
  {
    map k | k in slots :: RepOf(slots[k])
  }

  /** Different names denote different containers, all on one heap. */
  ghost predicate Named(heap: Heap, slots: Slots) {
    && (forall k :: k in slots ==> slots[k].heap == heap)
    && (forall j, k :: j in slots && k in slots && j != k ==> slots[j] != slots[k])
  }

  ghost predicate Sound(heap: Heap, slots: Slots, lost: set<int>)
    reads heap, slots.Values
  {
    heap.Valid() && Named(heap, slots) && Exclusive(heap.blocks, RepsOf(slots), lost)
  }

  ghost function StateOf(heap: Heap, slots: Slots, lost: set<int>): State
    requires Sound(heap, slots, lost)
    reads heap, slots.Values
  {
    Contents(heap.blocks, RepsOf(slots))
  }

  ghost predicate Ready(heap: Heap, slots: Slots, op: Op, lost: set<int>)
    reads heap, slots.Values
  {
    Sound(heap, slots, lost) && Defined(StateOf(heap, slots, lost), op)
  }

  /** A container's own predicates say of it what `LiveIn`, `OwnedOf` and `ContentIn` say of its words. */
  lemma Bridge(c: SizesAndStrides)
    requires c.heap.Valid()
    ensures (c.Live() <==> LiveIn(RepOf(c), c.heap.blocks)) && (c.Valid() ==> c.Live())
    ensures c.Live() ==> (
      && |c.words| == 2 * MAX_INLINE && c.Owned() == OwnedOf(RepOf(c)) && c.Content() == ContentIn(RepOf(c), c.heap.blocks)
      && (c.IsInline() <==> c.size <= MAX_INLINE) && SizeOf(c.Content()) == c.size
      && (c.Valid() <==> c.Content().Held?) && (c.IsWrecked() <==> !c.Valid())
      && (c.IsInline() ==> c.Valid() && c.Owned() == {}) && (c.IsWrecked() ==> c.Owned() == {})
      && (c.Valid() ==> c.Content() == Held(c.Sizes(), c.Strides())))
  {
  }

  lemma ReadyAt(heap: Heap, slots: Slots, op: Op, lost: set<int>, k: nat)
    requires Ready(heap, slots, op, lost)
    ensures heap.Valid() && Named(heap, slots) && Exclusive(heap.blocks, RepsOf(slots), lost)
    ensures AllLive(heap.blocks, RepsOf(slots)) && Defined(Contents(heap.blocks, RepsOf(slots)), op)
    ensures k in slots ==> slots[k].heap == heap && slots[k].Live()
    ensures k in slots <==> k in Contents(heap.blocks, RepsOf(slots))
    ensures k in slots ==> Contents(heap.blocks, RepsOf(slots))[k] == slots[k].Content()
  {
    ContentAt(heap.blocks, RepsOf(slots), lost, k);
    if k in slots {
      Bridge(slots[k]);
    }
    hide HasOwner, Defined, LiveIn, ContentIn, AllLive;
  }

  lemma AddName(heap: Heap, slots: Slots, a: nat, c: SizesAndStrides)
    requires Named(heap, slots) && c.heap == heap && forall k :: k in slots ==> slots[k] != c
    ensures Named(heap, slots[a := c])
  {
  }

  method StepMake(heap: Heap, slots: Slots, op: Op, ghost lost: set<int>)
    returns (ok: bool, slots': Slots, ghost lost': set<int>)
    requires Ready(heap, slots, op, lost) && op.Make?
    modifies heap, slots.Values
    ensures heap.Valid() && Named(heap, slots') && forall k :: k in slots' ==> slots'[k] in slots.Values || fresh(slots'[k])
    ensures Done(op, ok, old(heap.blocks), old(RepsOf(slots)), lost, heap.blocks, RepsOf(slots'), lost')
    ensures heap.refused == old(heap.refused) + if ok then 0 else 1
  {
    hide AllLive, Exclusive, Defined, Contents, LiveIn, ContentIn, OwnedOf, OwnedBy, Done, Traded, Resized, ResizedContent;
    hide Ready, Sound, SizeOf, SizesAndStrides.Valid, SizesAndStrides.Live, SizesAndStrides.Owned, SizesAndStrides.Content;
    hide SizesAndStrides.Sizes, SizesAndStrides.Strides, SizesAndStrides.IsInline, SizesAndStrides.IsWrecked;
    ReadyAt(heap, slots, op, lost, op.a);
    ghost var blocks, reps: Reps := heap.blocks, RepsOf(slots);
    var c := new SizesAndStrides(heap);
    ok, slots', lost' := true, slots[op.a := c], lost;
    Bridge(c);
    AddName(heap, slots, op.a, c);
    assert RepsOf(slots') == reps[op.a := RepOf(c)];
    AfterMake(op, blocks, reps, lost, RepsOf(slots'), RepOf(c));
  }

  lemma CopyTraded(was: Blocks, now: Blocks, own: set<int>)
    requires now.Keys == was.Keys + own && own !! was.Keys && forall p :: p in was ==> p in now && now[p] == was[p]
    ensures Traded(was, now, {}, own)
  {
  }

  method StepCopyMake(heap: Heap, slots: Slots, op: Op, ghost lost: set<int>)
    returns (ok: bool, slots': Slots, ghost lost': set<int>)
    requires Ready(heap, slots, op, lost) && op.CopyMake?
    modifies heap, slots.Values
    ensures heap.Valid() && Named(heap, slots') && forall k :: k in slots' ==> slots'[k] in slots.Values || fresh(slots'[k])
    ensures Done(op, ok, old(heap.blocks), old(RepsOf(slots)), lost, heap.blocks, RepsOf(slots'), lost')
    ensures heap.refused == old(heap.refused) + if ok then 0 else 1
  {
    hide AllLive, Exclusive, Defined, Contents, LiveIn, ContentIn, OwnedOf, OwnedBy, Done, Traded, Resized, ResizedContent;
    hide Ready, Sound, SizeOf, SizesAndStrides.Valid, SizesAndStrides.Live, SizesAndStrides.Owned, SizesAndStrides.Content;
    hide SizesAndStrides.Sizes, SizesAndStrides.Strides, SizesAndStrides.IsInline, SizesAndStrides.IsWrecked;
    ReadyAt(heap, slots, op, lost, op.a);
    ReadyAt(heap, slots, op, lost, op.b);
    ghost var blocks, reps: Reps := heap.blocks, RepsOf(slots);
    CopyMakeMeans(Contents(blocks, reps), op, true);
    var r := slots[op.b];
    Bridge(r);
    var c := new SizesAndStrides.Copy(r);
    lost' := lost;
    Bridge(c);
    ok := !c.IsWrecked();
    if ok {
      slots' := slots[op.a := c];
      AddName(heap, slots, op.a, c);
      assert RepsOf(slots') == reps[op.a := RepOf(c)];
      CopyTraded(blocks, heap.blocks, c.Owned());
    } else {
      slots' := slots;
    }
    AfterCopyMake(op, ok, blocks, reps, lost, heap.blocks, RepsOf(slots'), RepOf(c));
  }

  lemma EmptyContent(c: SizesAndStrides)
    requires c.Valid() && c.size == 0
    ensures c.Sizes() == [] && c.Strides() == []
  {
  }

  lemma NotOwned(blocks: Blocks, reps: Reps, a: nat)
    requires a !in reps
    ensures OwnedBy(reps, a) == {} && blocks - OwnedBy(reps, a) == blocks
  {
  }

  method StepMoveMake(heap: Heap, slots: Slots, op: Op, ghost lost: set<int>)
    returns (ok: bool, slots': Slots, ghost lost': set<int>)
    requires Ready(heap, slots, op, lost) && op.MoveMake?
    modifies heap, slots.Values
    ensures heap.Valid() && Named(heap, slots') && forall k :: k in slots' ==> slots'[k] in slots.Values || fresh(slots'[k])
    ensures Done(op, ok, old(heap.blocks), old(RepsOf(slots)), lost, heap.blocks, RepsOf(slots'), lost')
    ensures heap.refused == old(heap.refused) + if ok then 0 else 1
  {
    hide AllLive, Exclusive, Defined, Contents, LiveIn, ContentIn, OwnedOf, OwnedBy, Done, Traded, Resized, ResizedContent;
    hide Ready, Sound, SizeOf, SizesAndStrides.Valid, SizesAndStrides.Live, SizesAndStrides.Owned, SizesAndStrides.Content;
    hide SizesAndStrides.Sizes, SizesAndStrides.Strides, SizesAndStrides.IsInline, SizesAndStrides.IsWrecked;
    ReadyAt(heap, slots, op, lost, op.a);
    ReadyAt(heap, slots, op, lost, op.b);
    ghost var blocks, reps: Reps := heap.blocks, RepsOf(slots);
    MoveMeans(Contents(blocks, reps), op);
    var r := slots[op.b];
    Bridge(r);
    var c := new SizesAndStrides.Move(r);
    ok, slots', lost' := true, slots[op.a := c], lost;
    Bridge(r);
    Bridge(c);
    AddName(heap, slots, op.a, c);
    EmptyContent(r);
    NotOwned(blocks, reps, op.a);
    assert RepsOf(slots') == reps[op.a := RepOf(c)][op.b := RepOf(r)];
    AfterMove(op, blocks, reps, lost, heap.blocks, RepsOf(slots'), RepOf(c), RepOf(r));
  }

  lemma DropName(heap: Heap, slots: Slots, a: nat)
    requires Named(heap, slots)
    ensures Named(heap, slots - {a})
  {
  }

  method StepDrop(heap: Heap, slots: Slots, op: Op, ghost lost: set<int>)
    returns (ok: bool, slots': Slots, ghost lost': set<int>)
    requires Ready(heap, slots, op, lost) && op.Drop?
    modifies heap, slots.Values
    ensures heap.Valid() && Named(heap, slots') && forall k :: k in slots' ==> slots'[k] in slots.Values || fresh(slots'[k])
    ensures Done(op, ok, old(heap.blocks), old(RepsOf(slots)), lost, heap.blocks, RepsOf(slots'), lost')
    ensures heap.refused == old(heap.refused) + if ok then 0 else 1
  {
    hide AllLive, Exclusive, Defined, Contents, LiveIn, ContentIn, OwnedOf, OwnedBy, Done, Traded, Resized, ResizedContent;
    hide Ready, Sound, SizeOf, SizesAndStrides.Valid, SizesAndStrides.Live, SizesAndStrides.Owned, SizesAndStrides.Content;
    hide SizesAndStrides.Sizes, SizesAndStrides.Strides, SizesAndStrides.IsInline, SizesAndStrides.IsWrecked;
    ReadyAt(heap, slots, op, lost, op.a);
    ghost var blocks, reps: Reps := heap.blocks, RepsOf(slots);
    DropMeans(Contents(blocks, reps), op);
    var c := slots[op.a];
    Bridge(c);
    c.Destroy();
    ok, slots', lost' := true, slots - {op.a}, lost;
    DropName(heap, slots, op.a);
    assert RepsOf(slots') == reps - {op.a};
    AfterDrop(op, blocks, reps, lost, heap.blocks, RepsOf(slots'));
  }

  /** Containers under different names own different blocks. */
  lemma NamesApart(heap: Heap, slots: Slots, op: Op, lost: set<int>)
    requires Ready(heap, slots, op, lost) && (op.Assign? || op.MoveAssign?) && op.a in slots && op.b in slots
    ensures slots[op.a].heap == slots[op.b].heap == heap && slots[op.a].Live() && slots[op.b].Live()
    ensures slots[op.a] == slots[op.b] <==> op.a == op.b
    ensures op.a != op.b ==> slots[op.a].Owned() !! slots[op.b].Owned()
  {
    var a, b := op.a, op.b;
    Bridge(slots[a]);
    Bridge(slots[b]);
    ContentAt(heap.blocks, RepsOf(slots), lost, a);
    ContentAt(heap.blocks, RepsOf(slots), lost, b);
    if a != b {
      OwnersApart(heap.blocks, RepsOf(slots), lost, a, b);
    }
    hide HasOwner, LiveIn, ContentIn, AllLive;
  }

  method StepAssign(heap: Heap, slots: Slots, op: Op, ghost lost: set<int>)
    returns (ok: bool, slots': Slots, ghost lost': set<int>)
    requires Ready(heap, slots, op, lost) && op.Assign?
    modifies heap, slots.Values
    ensures heap.Valid() && Named(heap, slots') && forall k :: k in slots' ==> slots'[k] in slots.Values || fresh(slots'[k])
    ensures Done(op, ok, old(heap.blocks), old(RepsOf(slots)), lost, heap.blocks, RepsOf(slots'), lost')
    ensures heap.refused == old(heap.refused) + if ok then 0 else 1
  {
    hide AllLive, Exclusive, Defined, Contents, LiveIn, ContentIn, OwnedOf, OwnedBy, Done, Traded, Resized, ResizedContent;
    hide Ready, Sound, SizeOf, SizesAndStrides.Valid, SizesAndStrides.Live, SizesAndStrides.Owned, SizesAndStrides.Content;
    hide SizesAndStrides.Sizes, SizesAndStrides.Strides, SizesAndStrides.IsInline, SizesAndStrides.IsWrecked;
    ReadyAt(heap, slots, op, lost, op.a);
    ReadyAt(heap, slots, op, lost, op.b);
    ghost var blocks, reps: Reps := heap.blocks, RepsOf(slots);
    AssignMeans(Contents(blocks, reps), op, true);
    var c, r := slots[op.a], slots[op.b];
    NamesApart(heap, slots, op, lost);
    Bridge(c);
    Bridge(r);
    ghost var gone := c.Owned();
    ok := c.CopyFrom(r);
    slots' := slots;
    if ok {
      gone := {};
    }
    lost' := lost + gone;
    Bridge(c);
    assert RepsOf(slots') == reps[op.a := RepOf(c)];
    AfterAssign(op, ok, blocks, reps, lost, heap.blocks, RepsOf(slots'), RepOf(c), gone);
  }

  lemma OwnedAt(reps: Reps, a: nat)
    requires a in reps
    ensures OwnedBy(reps, a) == OwnedOf(reps[a])
  {
  }

  method StepMoveAssign(heap: Heap, slots: Slots, op: Op, ghost lost: set<int>)
    returns (ok: bool, slots': Slots, ghost lost': set<int>)
    requires Ready(heap, slots, op, lost) && op.MoveAssign?
    modifies heap, slots.Values
    ensures heap.Valid() && Named(heap, slots') && forall k :: k in slots' ==> slots'[k] in slots.Values || fresh(slots'[k])
    ensures Done(op, ok, old(heap.blocks), old(RepsOf(slots)), lost, heap.blocks, RepsOf(slots'), lost')
    ensures heap.refused == old(heap.refused) + if ok then 0 else 1
  {
    hide AllLive, Exclusive, Defined, Contents, LiveIn, ContentIn, OwnedOf, OwnedBy, Done, Traded, Resized, ResizedContent;
    hide Ready, Sound, SizeOf, SizesAndStrides.Valid, SizesAndStrides.Live, SizesAndStrides.Owned, SizesAndStrides.Content;
    hide SizesAndStrides.Sizes, SizesAndStrides.Strides, SizesAndStrides.IsInline, SizesAndStrides.IsWrecked;
    ReadyAt(heap, slots, op, lost, op.a);
    ReadyAt(heap, slots, op, lost, op.b);
    ghost var blocks, reps: Reps := heap.blocks, RepsOf(slots);
    MoveMeans(Contents(blocks, reps), op);
    var c, r := slots[op.a], slots[op.b];
    NamesApart(heap, slots, op, lost);
    Bridge(c);
    Bridge(r);
    OwnedAt(reps, op.a);
    c.MoveFrom(r);
    ok, slots', lost' := true, slots, lost;
    if op.a == op.b {
      assert RepsOf(slots') == reps;
      AfterSelfMove(op, blocks, reps, lost);
    } else {
      Bridge(r);
      Bridge(c);
      EmptyContent(r);
      assert RepsOf(slots') == reps[op.a := RepOf(c)][op.b := RepOf(r)];
      AfterMove(op, blocks, reps, lost, heap.blocks, RepsOf(slots'), RepOf(c), RepOf(r));
    }
  }

  method StepResize(heap: Heap, slots: Slots, op: Op, ghost lost: set<int>)
    returns (ok: bool, slots': Slots, ghost lost': set<int>)
    requires Ready(heap, slots, op, lost) && op.Resize?
    modifies heap, slots.Values
    ensures heap.Valid() && Named(heap, slots') && forall k :: k in slots' ==> slots'[k] in slots.Values || fresh(slots'[k])
    ensures Done(op, ok, old(heap.blocks), old(RepsOf(slots)), lost, heap.blocks, RepsOf(slots'), lost')
    ensures heap.refused == old(heap.refused) + if ok then 0 else 1
  {
    hide AllLive, Exclusive, Defined, Contents, LiveIn, ContentIn, OwnedOf, OwnedBy, Done, Traded, Resized, ResizedContent;
    hide Ready, Sound, SizeOf, SizesAndStrides.Valid, SizesAndStrides.Live, SizesAndStrides.Owned, SizesAndStrides.Content;
    hide SizesAndStrides.Sizes, SizesAndStrides.Strides, SizesAndStrides.IsInline, SizesAndStrides.IsWrecked;
    ReadyAt(heap, slots, op, lost, op.a);
    ghost var blocks, reps: Reps := heap.blocks, RepsOf(slots);
    ResizeMeans(Contents(blocks, reps), op, true);
    var c := slots[op.a];
    Bridge(c);
    ghost var gone := c.Owned();
    ok := c.Resize(op.size);
    slots' := slots;
    if ok {
      gone := {};
    }
    lost' := lost + gone;
    Bridge(c);
    assert RepsOf(slots') == reps[op.a := RepOf(c)];
    AfterResize(op, ok, blocks, reps, lost, heap.blocks, RepsOf(slots'), RepOf(c), gone);
  }

  method StepWrite(heap: Heap, slots: Slots, op: Op, ghost lost: set<int>)
    returns (ok: bool, slots': Slots, ghost lost': set<int>)
    requires Ready(heap, slots, op, lost) && op.Write?
    modifies heap, slots.Values
    ensures heap.Valid() && Named(heap, slots') && forall k :: k in slots' ==> slots'[k] in slots.Values || fresh(slots'[k])
    ensures Done(op, ok, old(heap.blocks), old(RepsOf(slots)), lost, heap.blocks, RepsOf(slots'), lost')
    ensures heap.refused == old(heap.refused) + if ok then 0 else 1
  {
    hide AllLive, Exclusive, Defined, Contents, LiveIn, ContentIn, OwnedOf, OwnedBy, Done, Traded, Resized, ResizedContent;
    hide Ready, Sound, SizeOf, SizesAndStrides.Valid, SizesAndStrides.Live, SizesAndStrides.Owned, SizesAndStrides.Content;
    hide SizesAndStrides.Sizes, SizesAndStrides.Strides, SizesAndStrides.IsInline, SizesAndStrides.IsWrecked;
    ReadyAt(heap, slots, op, lost, op.a);
    ghost var blocks, reps: Reps := heap.blocks, RepsOf(slots);
    WriteMeans(Contents(blocks, reps), op);
    var c := slots[op.a];
    Bridge(c);
    if op.part.SizePart? {
      c.SetSize(op.i, op.value);
    } else {
      c.SetStride(op.i, op.value);
    }
    ok, slots', lost' := true, slots, lost;
    Bridge(c);
    assert RepsOf(slots') == reps[op.a := RepOf(c)];
    AfterWrite(op, blocks, reps, lost, heap.blocks, RepsOf(slots'), RepOf(c));
  }

  /** One operation, whichever it is. */
  method Step(heap: Heap, slots: Slots, op: Op, ghost lost: set<int>)
    returns (ok: bool, slots': Slots, ghost lost': set<int>)
    requires Ready(heap, slots, op, lost)
    modifies heap, slots.Values
    ensures heap.Valid() && Named(heap, slots') && forall k :: k in slots' ==> slots'[k] in slots.Values || fresh(slots'[k])
    ensures Done(op, ok, old(heap.blocks), old(RepsOf(slots)), lost, heap.blocks, RepsOf(slots'), lost')
    ensures heap.refused == old(heap.refused) + if ok then 0 else 1
  {
    hide *;
    match op
    case Make(_) => ok, slots', lost' := StepMake(heap, slots, op, lost);
    case CopyMake(_, _) => ok, slots', lost' := StepCopyMake(heap, slots, op, lost);
    case MoveMake(_, _) => ok, slots', lost' := StepMoveMake(heap, slots, op, lost);
    case Drop(_) => ok, slots', lost' := StepDrop(heap, slots, op, lost);
    case Assign(_, _) => ok, slots', lost' := StepAssign(heap, slots, op, lost);
    case MoveAssign(_, _) => ok, slots', lost' := StepMoveAssign(heap, slots, op, lost);
    case Resize(_, _) => ok, slots', lost' := StepResize(heap, slots, op, lost);
    case Write(_, _, _, _) => ok, slots', lost' := StepWrite(heap, slots, op, lost);
  }

  // ----- runs -----

  predicate Usable(r: Rep) {
    r.size <= MAX_INLINE || Points(r)
  }

  /** `Defined`, as the containers themselves tell. */
  predicate Possible(reps: Reps, op: Op) {
    match op
    case Make(a) => a !in reps
    case CopyMake(a, b) => a !in reps && b in reps && Usable(reps[b])
    case MoveMake(a, b) => a !in reps && b in reps
    case Drop(a) => a in reps
    case Assign(a, b) => a in reps && b in reps && (a == b || Usable(reps[b]))
    case MoveAssign(a, b) => a in reps && b in reps
    case Resize(a, n) => a in reps && (Usable(reps[a]) || reps[a].size == n)
    case Write(a, _, i, _) => a in reps && Usable(reps[a]) && i < reps[a].size
  }

  lemma PossibleMeans(blocks: Blocks, reps: Reps, lost: set<int>, op: Op)
    requires Exclusive(blocks, reps, lost)
    ensures AllLive(blocks, reps) && (Possible(reps, op) <==> Defined(Contents(blocks, reps), op))
  {
    ContentAt(blocks, reps, lost, op.a);
    ContentAt(blocks, reps, lost, if op.CopyMake? || op.MoveMake? || op.Assign? || op.MoveAssign? then op.b else op.a);
    hide Exclusive, LiveIn, ContentIn, OwnedOf, OwnedBy, Points, HasBlock, AllLive, Contents;
  }

  lemma AfterSnoc(s: State, ops: seq<Op>, oks: seq<bool>, op: Op, ok: bool)
    requires |oks| == |ops| && AllDefined(s, ops, oks) && Defined(After(s, ops, oks), op)
    requires !ok ==> MayFail(After(s, ops, oks), op)
    ensures AllDefined(s, ops + [op], oks + [ok])
    ensures After(s, ops + [op], oks + [ok]) == Next(After(s, ops, oks), op, ok)
    ensures TotalLost(s, ops + [op], oks + [ok]) == TotalLost(s, ops, oks) + Loses(After(s, ops, oks), op, ok)
  {
    assert (ops + [op])[..|ops|] == ops && (oks + [ok])[..|ops|] == oks;
    hide Next, Loses, MayFail, Defined;
  }

  lemma AfterNothing(s: State)
    ensures AllDefined(s, [], []) && After(s, [], []) == s && TotalLost(s, [], []) == 0
  {
  }

  /** The state of a run after the operations `ops`, with the outcomes `oks`. */
  ghost predicate Reached(
    s: State, ops: seq<Op>, oks: seq<bool>, blocks: Blocks, reps: Reps, lost: set<int>, blocks': Blocks, reps': Reps,
    lost': set<int>)
  {
    && |oks| == |ops| && AllDefined(s, ops, oks)
    && AllLive(blocks, reps) && Contents(blocks, reps) == s
    && Exclusive(blocks', reps', lost') && Contents(blocks', reps') == After(s, ops, oks)
    && lost <= lost' && |lost'| == |lost| + TotalLost(s, ops, oks)
  }

  lemma ReachedStart(s: State, blocks: Blocks, reps: Reps, lost: set<int>)
    requires Exclusive(blocks, reps, lost) && Contents(blocks, reps) == s
    ensures Reached(s, [], [], blocks, reps, lost, blocks, reps, lost)
  {
    AfterNothing(s);
    hide HasOwner, LiveIn, Contents, AllDefined, After, TotalLost, OwnedBy;
  }

  lemma ReachedStep(
    s: State, ops: seq<Op>, oks: seq<bool>, blocks: Blocks, reps: Reps, lost: set<int>, mid: Blocks, midReps: Reps,
    midLost: set<int>, op: Op, ok: bool, blocks': Blocks, reps': Reps, lost': set<int>)
    requires Reached(s, ops, oks, blocks, reps, lost, mid, midReps, midLost)
    requires Done(op, ok, mid, midReps, midLost, blocks', reps', lost')
    ensures Reached(s, ops + [op], oks + [ok], blocks, reps, lost, blocks', reps', lost')
  {
    hide Exclusive, AllDefined, After, TotalLost, Next, Loses, MayFail, Defined, AllLive, Contents;
    AfterSnoc(s, ops, oks, op, ok);
  }

  lemma ReachedSound(
    s: State, ops: seq<Op>, oks: seq<bool>, blocks: Blocks, reps: Reps, lost: set<int>, blocks': Blocks, reps': Reps,
    lost': set<int>, op: Op)
    requires Reached(s, ops, oks, blocks, reps, lost, blocks', reps', lost')
    ensures Exclusive(blocks', reps', lost') && AllLive(blocks', reps') && Contents(blocks', reps') == After(s, ops, oks)
    ensures |oks| == |ops|
    ensures Possible(reps', op) <==> Defined(After(s, ops, oks), op)
  {
    PossibleMeans(blocks', reps', lost', op);
    hide HasOwner, LiveIn, After, AllDefined, TotalLost, Possible, Defined, OwnedBy, Contents;
  }

  lemma ReadyIntro(heap: Heap, slots: Slots, op: Op, lost: set<int>)
    requires heap.Valid() && Named(heap, slots) && Exclusive(heap.blocks, RepsOf(slots), lost)
    requires Possible(RepsOf(slots), op)
    ensures Ready(heap, slots, op, lost)
  {
    PossibleMeans(heap.blocks, RepsOf(slots), lost, op);
    hide Exclusive, Possible, Defined, Contents, AllLive;
  }

  /** How many operations failed. */
  function Failures(oks: seq<bool>): nat {
    if |oks| == 0 then 0 else Failures(oks[..|oks| - 1]) + if oks[|oks| - 1] then 0 else 1
  }

  lemma FailuresSnoc(oks: seq<bool>, ok: bool)
    ensures Failures(oks + [ok]) == Failures(oks) + (if ok then 0 else 1) && Failures([]) == 0
  {
    assert (oks + [ok])[..|oks|] == oks;
  }

  /**
   * Runs a program from any state in which every block has one owner, and keeps that so at every step,
   * whichever allocations fail. The contents are what the operations mean; an operation fails exactly when
   * the heap refuses its request, and a block is lost only where a reallocation failed. The run ends early
   * only at an operation that would read a missing block.
   */
  method Run(heap: Heap, slots: Slots, ops: seq<Op>, ghost lost: set<int>)
    returns (done: nat, oks: seq<bool>, slots': Slots, ghost lost': set<int>)
    requires Sound(heap, slots, lost)
    modifies heap, slots.Values
    ensures heap.Valid() && Named(heap, slots') && forall k :: k in slots' ==> slots'[k] in slots.Values || fresh(slots'[k])
    ensures done <= |ops|
    ensures Reached(old(StateOf(heap, slots, lost)), ops[..done], oks, old(heap.blocks), old(RepsOf(slots)), lost,
                    heap.blocks, RepsOf(slots'), lost')
    ensures done < |ops| ==> !Defined(After(old(StateOf(heap, slots, lost)), ops[..done], oks), ops[done])
    ensures heap.refused == old(heap.refused) + Failures(oks)
  {
    hide *;
    SoundMeans(heap, slots, lost);
    ghost var s, blocks, reps: Reps := StateOf(heap, slots, lost), heap.blocks, RepsOf(slots);
    ReachedStart(s, blocks, reps, lost);
    done, oks, slots', lost' := 0, [], slots, lost;
    FailuresSnoc([], true);
    assert ops[..0] == [];
    while done < |ops|
      invariant done <= |ops| && heap.Valid() && Named(heap, slots')
      invariant forall k :: k in slots' ==> slots'[k] in slots.Values || fresh(slots'[k])
      invariant Reached(s, ops[..done], oks, blocks, reps, lost, heap.blocks, RepsOf(slots'), lost')
      invariant heap.refused == old(heap.refused) + Failures(oks)
    {
      var op := ops[done];
      ReachedSound(s, ops[..done], oks, blocks, reps, lost, heap.blocks, RepsOf(slots'), lost', op);
      if !Possible(RepsOf(slots'), op) {
        return;
      }
      ReadyIntro(heap, slots', op, lost');
      ghost var mid, midReps: Reps, midLost := heap.blocks, RepsOf(slots'), lost';
      var ok;
      ok, slots', lost' := Step(heap, slots', op, lost');
      ReachedStep(s, ops[..done], oks, blocks, reps, lost, mid, midReps, midLost, op, ok, heap.blocks, RepsOf(slots'), lost');
      assert ops[..done] + [op] == ops[..done + 1];
      FailuresSnoc(oks, ok);
      oks := oks + [ok];
      done := done + 1;
    }
  }

  lemma SoundMeans(heap: Heap, slots: Slots, lost: set<int>)
    requires Sound(heap, slots, lost)
    ensures heap.Valid() && Named(heap, slots) && Exclusive(heap.blocks, RepsOf(slots), lost)
    ensures AllLive(heap.blocks, RepsOf(slots)) && StateOf(heap, slots, lost) == Contents(heap.blocks, RepsOf(slots))
  {
    hide LiveIn, ContentIn, HasOwner, OwnedBy;
  }

  // ----- the end of a run -----

  lemma DropDone(op: Op, ok: bool, blocks: Blocks, reps: Reps, lost: set<int>, blocks': Blocks, reps': Reps, lost': set<int>)
    requires op.Drop? && Exclusive(blocks, reps, lost) && Done(op, ok, blocks, reps, lost, blocks', reps', lost')
    ensures ok && Exclusive(blocks', reps', lost') && lost' == lost && reps'.Keys == reps.Keys - {op.a}
  {
    var s := Contents(blocks, reps);
    assert ok;
    DropMeans(s, op);
    assert reps'.Keys == Contents(blocks', reps').Keys && s.Keys == reps.Keys;
    hide Exclusive, AllLive, LiveIn, ContentIn, Contents, Next, Defined, Loses;
    SameSize(lost, lost');
  }

  lemma SameSize(a: set<int>, b: set<int>)
    requires a <= b && |a| == |b|
    ensures a == b
  {
    assert b == a + (b - a) && |b| == |a| + |b - a|;
  }

  lemma DropPossible(heap: Heap, slots: Slots, lost: set<int>, k: nat)
    requires Sound(heap, slots, lost) && k in slots
    ensures Ready(heap, slots, Drop(k), lost)
  {
    ReadyIntro(heap, slots, Drop(k), lost);
  }

  lemma OnlyLostLeft(blocks: Blocks, reps: Reps, lost: set<int>)
    requires Exclusive(blocks, reps, lost) && reps == map[]
    ensures blocks.Keys == lost
  {
    forall p | p in blocks ensures p in lost {
      assert !HasOwner(reps, p);
    }
    hide LiveIn;
  }

  lemma SoundIntro(heap: Heap, slots: Slots, lost: set<int>)
    requires heap.Valid() && Named(heap, slots) && Exclusive(heap.blocks, RepsOf(slots), lost)
    ensures Sound(heap, slots, lost)
  {
  }

  /** Containers that are destroyed free their blocks once each; after the last one only the lost blocks are left. */
  method DestroyAll(heap: Heap, slots: Slots, ghost lost: set<int>)
    requires Sound(heap, slots, lost)
    modifies heap, slots.Values
    ensures heap.Valid() && heap.blocks.Keys == lost && heap.refused == old(heap.refused)
  {
    hide *;
    var rest := slots;
    SoundMeans(heap, slots, lost);
    while rest != map[]
      invariant heap.Valid() && Sound(heap, rest, lost) && heap.refused == old(heap.refused)
      invariant forall k :: k in rest ==> rest[k] in slots.Values || fresh(rest[k])
      decreases rest.Keys
    {
      var k :| k in rest;
      DropPossible(heap, rest, lost, k);
      SoundMeans(heap, rest, lost);
      ghost var blocks, reps: Reps := heap.blocks, RepsOf(rest);
      ghost var left;
      var ok, rest';
      ok, rest', left := StepDrop(heap, rest, Drop(k), lost);
      DropDone(Drop(k), ok, blocks, reps, lost, heap.blocks, RepsOf(rest'), left);
      SoundIntro(heap, rest', lost);
      assert rest'.Keys == rest.Keys - {k};
      rest := rest';
    }
    SoundMeans(heap, rest, lost);
    assert RepsOf(rest) == map[];
    OnlyLostLeft(heap.blocks, RepsOf(rest), lost);
  }

  lemma NothingYet(heap: Heap)
    requires heap.Valid() && heap.blocks == map[]
    ensures Sound(heap, map[], {}) && StateOf(heap, map[], {}) == map[]
  {
    assert RepsOf(map[]) == map[];
  }

  lemma ReachedLost(
    s: State, ops: seq<Op>, oks: seq<bool>, blocks: Blocks, reps: Reps, lost: set<int>, blocks': Blocks, reps': Reps,
    lost': set<int>)
    requires Reached(s, ops, oks, blocks, reps, lost, blocks', reps', lost')
    ensures Exclusive(blocks', reps', lost') && |oks| == |ops| && |lost'| == |lost| + TotalLost(s, ops, oks)
    ensures AllDefined(s, ops, oks)
  {
    hide Exclusive, AllDefined, After, AllLive, Contents, TotalLost;
  }

  /**
   * A whole life: any program from an empty heap, then the destruction of whatever containers there are.
   * As many blocks remain as reallocations failed under a container that had a block; with none, no memory
   * is left at all.
   */
  method RunAndDestroy(ops: seq<Op>) returns (heap: Heap, done: nat, oks: seq<bool>)
    ensures done <= |ops| && |oks| == done && AllDefined(map[], ops[..done], oks)
    ensures done < |ops| ==> !Defined(After(map[], ops[..done], oks), ops[done])
    ensures |heap.blocks| == TotalLost(map[], ops[..done], oks) && heap.refused == Failures(oks)
    ensures (forall i :: 0 <= i < done ==> oks[i]) ==> heap.blocks == map[]
  {
    hide *;
    heap := new Heap();
    NothingYet(heap);
    ghost var none: Slots, blocks := map[], heap.blocks;
    ghost var reps: Reps := RepsOf(none);
    var slots;
    ghost var lost;
    done, oks, slots, lost := Run(heap, map[], ops, {});
    ReachedLost(map[], ops[..done], oks, blocks, reps, {}, heap.blocks, RepsOf(slots), lost);
    SoundIntro(heap, slots, lost);
    DestroyAll(heap, slots, lost);
    KeysCount(heap.blocks);
    if forall i :: 0 <= i < done ==> oks[i] {
      NothingFailsNothingLost(map[], ops[..done], oks);
    }
  }

  lemma KeysCount(blocks: Blocks)
    ensures |blocks| == |blocks.Keys| && (|blocks| == 0 ==> blocks == map[])
  {
  }
}
