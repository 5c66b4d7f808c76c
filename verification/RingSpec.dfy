/**
 The index arithmetic of the fixed-capacity queue on values: unsigned 32-bit indices whose
 reset value for the tail is -1, that is 2^32 - 1.  The ring is shown to behave as a bounded
 double-ended queue.
 */
module RingSpec {
  import opened Arithmetic
  import opened Machine

  /** `_buff`, `_head`, `_tail`, `_current_size`; the capacity is the length of the buffer. */
  datatype Ring<T> = Ring(buff: seq<T>, head: uint32, tail: uint32, size: uint32)

  const NO_TAIL: uint32 := 0xFFFF_FFFF

  /** Unsigned 32-bit arithmetic. */
  function U32(a: int): (r: uint32)
    ensures 0 <= a < TWO32 ==> r == a
    ensures a == -1 ==> r == NO_TAIL
    ensures a == TWO32 ==> r == 0
  {
    a % TWO32
  }

  /** The remainder by a capacity; a number below twice the capacity has at most one capacity in it. */
  function Rem(a: nat, cap: nat): (r: nat)
    requires cap > 0
    ensures r < cap
    ensures a < cap ==> r == a
    ensures cap <= a < 2 * cap ==> r == a - cap
  {
    if cap <= a < 2 * cap then RemOnce(a, cap); a % cap else a % cap
  }

  lemma RemOnce(a: nat, cap: nat)
    requires cap <= a < 2 * cap
    ensures a % cap == a - cap
  {
    Residue(a, 1, a - cap, cap);
  }

  datatype Op<T> = PushBack(x: T) | PushFront(x: T) | PopFront | PopBack | Clear | Resize(buff: seq<T>)

  // ----- the operations -----

  function Reset<T>(buff: seq<T>): Ring<T> {
    Ring(buff, 0, NO_TAIL, 0)
  }

  function DoPushBack<T>(r: Ring<T>, x: T): Ring<T>
    requires 0 < |r.buff| <= TWO31
  {
    var cap := |r.buff|;
    var full := r.size == cap;
    var head: uint32 := if full then Rem(U32(r.head + 1), cap) else r.head;
    var size: uint32 := if full then U32(r.size - 1) else r.size;
    var tail: uint32 := Rem(U32(r.tail + 1), cap);
    Ring(r.buff[tail := x], head, tail, U32(size + 1))
  }

  function DoPushFront<T>(r: Ring<T>, x: T): Ring<T>
    requires 0 < |r.buff| <= TWO31
  {
    var cap := |r.buff|;
    if r.size == cap then r
    else
      var head: uint32 := Rem(U32(U32(r.head + cap) - 1), cap);
      Ring(r.buff[head := x], head, r.tail, U32(r.size + 1))
  }

  function DoPopFront<T>(r: Ring<T>): Ring<T>
    requires 0 < |r.buff| <= TWO31
  {
    if r.size == 0 then r else r.(head := Rem(U32(r.head + 1), |r.buff|), size := U32(r.size - 1))
  }

  /** The test for a negative `_tail` never fires: the index is unsigned. */
  function DoPopBack<T>(r: Ring<T>): Ring<T> {
    if r.size == 0 then r else r.(tail := U32(r.tail - 1), size := U32(r.size - 1))
  }

  function Do<T>(r: Ring<T>, op: Op<T>): Ring<T>
    requires 0 < |r.buff| <= TWO31 && Allowed(op)
  {
    match op
    case PushBack(x) => DoPushBack(r, x)
    case PushFront(x) => DoPushFront(r, x)
    case PopFront => DoPopFront(r)
    case PopBack => DoPopBack(r)
    case Clear => Reset(r.buff)
    case Resize(buff) => Reset(buff)
  }

  /** A new capacity must be positive and at most 2^31. */
  predicate Allowed<T>(op: Op<T>) {
    op.Resize? ==> 0 < |op.buff| <= TWO31
  }

  // ----- the deque -----

  datatype Deque<T> = Deque(items: seq<T>, cap: nat)

  /** What each operation is for: the oldest element makes room at the back, the front refuses when full. */
  function DequeDo<T>(d: Deque<T>, op: Op<T>): Deque<T> {
    match op
    case PushBack(x) => d.(items := (if |d.items| == d.cap && d.items != [] then d.items[1..] else d.items) + [x])
    case PushFront(x) => if |d.items| == d.cap then d else d.(items := [x] + d.items)
    case PopFront => if d.items == [] then d else d.(items := d.items[1..])
    case PopBack => if d.items == [] then d else d.(items := d.items[..|d.items| - 1])
    case Clear => d.(items := [])
    case Resize(buff) => Deque([], |buff|)
  }

  /** The newest elements, as many as fit; one more in front only if there is room; the ends taken off. */
  lemma DequeMeaning<T>(s: seq<T>, cap: nat, x: T)
    requires 0 < cap && |s| <= cap
    ensures DequeDo(Deque(s, cap), PushBack(x)) == Deque(Newest(s + [x], cap), cap)
    ensures DequeDo(Deque(s, cap), PushFront(x)).items == if |s| < cap then [x] + s else s
    ensures DequeDo(Deque([x] + s, cap), PopFront).items == s
    ensures DequeDo(Deque(s + [x], cap), PopBack).items == s
    ensures s == [] ==> DequeDo(Deque(s, cap), PopFront).items == [] && DequeDo(Deque(s, cap), PopBack).items == []
    ensures DequeDo(Deque(s, cap), Clear).items == []
  {
    if |s| == cap {
      assert (s + [x])[1..] == s[1..] + [x];
    }
  }

  function Newest<T>(s: seq<T>, cap: nat): seq<T> {
    if |s| <= cap then s else s[|s| - cap..]
  }

  /** `read(index)` for an index within the queue. */
  function At<T>(r: Ring<T>, i: nat): T
    requires 0 < |r.buff|
  {
    r.buff[Rem(U32(i + r.head), |r.buff|)]
  }

  function Contents<T>(r: Ring<T>): (s: seq<T>)
    requires 0 < |r.buff|
    ensures |s| == r.size
  {
    seq(r.size, i requires 0 <= i => At(r, i))
  }

  function Abstract<T>(r: Ring<T>): Deque<T>
    requires 0 < |r.buff|
  {
    Deque(Contents(r), |r.buff|)
  }

  // ----- the invariant -----

  predicate InRange<T>(r: Ring<T>) {
    0 < |r.buff| <= TWO31 && r.head < |r.buff| && r.size <= |r.buff|
  }

  /** The place after the tail, in the code's own wrap-around arithmetic, is the place after the last element. */
  predicate Congruent<T>(r: Ring<T>)
    requires 0 < |r.buff|
  {
    Rem(U32(r.tail + 1), |r.buff|) == Rem(r.head + r.size, |r.buff|)
  }

  predicate Sound<T>(r: Ring<T>) {
    InRange(r) && Congruent(r)
  }

  /** Slot of the i-th element. */
  function Slot<T>(r: Ring<T>, i: nat): nat
    requires 0 < |r.buff|
  {
    Rem(r.head + i, |r.buff|)
  }

  // ----- one operation -----

  lemma ContentsAt<T>(r: Ring<T>, i: nat)
    requires InRange(r) && i < r.size
    ensures Contents(r)[i] == r.buff[Slot(r, i)]
  {
  }

  /** The slot written is the one after the last element; the head moves only when the ring is full. */
  lemma PushBackIndices<T>(r: Ring<T>, x: T)
    requires Sound(r)
    ensures var cap, r' := |r.buff|, DoPushBack(r, x);
            && r'.tail == Slot(r, r.size)
            && r'.head == (if r.size == cap then Slot(r, 1) else r.head)
            && r'.size == (if r.size == cap then r.size else r.size + 1)
            && r'.buff == r.buff[r'.tail := x]
            && Sound(r')
  {
    hide Rem, U32;
  }

  lemma PushBackRefines<T>(r: Ring<T>, x: T)
    requires Sound(r)
    ensures Sound(DoPushBack(r, x)) && DoPushBack(r, x).tail < |r.buff|
    ensures Abstract(DoPushBack(r, x)) == DequeDo(Abstract(r), PushBack(x))
  {
    hide Contents, Rem, U32, DoPushBack;
    var cap, r' := |r.buff|, DoPushBack(r, x);
    PushBackIndices(r, x);
    var s, s' := Contents(r), Contents(r');
    var kept := if r.size == cap then s[1..] else s;
    forall i | 0 <= i < r'.size ensures s'[i] == (kept + [x])[i] {
      ContentsAt(r', i);
      if i < r'.size - 1 {
        ContentsAt(r, if r.size == cap then i + 1 else i);
      }
    }
    assert s' == kept + [x];
  }

  /** The head moves back one place, around the end of the buffer if need be. */
  lemma PushFrontIndices<T>(r: Ring<T>, x: T)
    requires Sound(r) && r.size < |r.buff|
    ensures var cap, r' := |r.buff|, DoPushFront(r, x);
            && r'.head == (if r.head == 0 then cap - 1 else r.head - 1)
            && r'.size == r.size + 1 && r'.tail == r.tail
            && r'.buff == r.buff[r'.head := x]
            && Sound(r')
  {
    hide Rem, U32;
  }

  lemma PushFrontRefines<T>(r: Ring<T>, x: T)
    requires Sound(r)
    ensures Sound(DoPushFront(r, x)) && DoPushFront(r, x).tail == r.tail
    ensures Abstract(DoPushFront(r, x)) == DequeDo(Abstract(r), PushFront(x))
  {
    hide Contents, Rem, U32;
    if r.size < |r.buff| {
      PushFrontInserts(r, x);
    }
  }

  lemma PushFrontInserts<T>(r: Ring<T>, x: T)
    requires Sound(r) && r.size < |r.buff|
    ensures Sound(DoPushFront(r, x)) && DoPushFront(r, x).tail == r.tail
    ensures Contents(DoPushFront(r, x)) == [x] + Contents(r) && |DoPushFront(r, x).buff| == |r.buff|
  {
    hide Contents, Rem, U32, DoPushFront;
    var r' := DoPushFront(r, x);
    PushFrontIndices(r, x);
    var s, s' := Contents(r), Contents(r');
    forall i | 0 <= i < r'.size ensures s'[i] == ([x] + s)[i] {
      ContentsAt(r', i);
      if i > 0 {
        ContentsAt(r, i - 1);
      }
    }
    assert s' == [x] + s;
  }

  lemma PopFrontRefines<T>(r: Ring<T>)
    requires Sound(r)
    ensures Sound(DoPopFront(r)) && DoPopFront(r).tail == r.tail
    ensures Abstract(DoPopFront(r)) == DequeDo(Abstract(r), PopFront)
  {
    hide Contents, Rem, U32;
    if r.size > 0 {
      var r' := DoPopFront(r);
      var s, s' := Contents(r), Contents(r');
      forall i | 0 <= i < r'.size ensures s'[i] == s[1..][i] {
        ContentsAt(r', i);
        ContentsAt(r, i + 1);
      }
      assert s' == s[1..];
    }
  }

  /** Removing at the back always shows the right elements ... */
  lemma PopBackRefines<T>(r: Ring<T>)
    requires InRange(r)
    ensures InRange(DoPopBack(r))
    ensures Abstract(DoPopBack(r)) == DequeDo(Abstract(r), PopBack)
  {
    hide Rem, U32;
    if r.size > 0 {
      assert Contents(DoPopBack(r)) == Contents(r)[..r.size - 1];
    }
  }

  /** There is nothing to remove, the tail is not about to wrap, or wrapping does not matter. */
  predicate PopKeepsStep<T>(r: Ring<T>)
    requires 0 < |r.buff|
  {
    r.size == 0 || r.tail != NO_TAIL || TWO32 % |r.buff| == 0
  }

  /** ... but keeps the tail in step exactly under that guard. */
  lemma PopBackKeepsStep<T>(r: Ring<T>)
    requires Sound(r)
    ensures Sound(DoPopBack(r)) <==> PopKeepsStep(r)
  {
    hide Rem, U32;
    var cap := |r.buff|;
    if r.size > 0 {
      if r.tail == NO_TAIL {
        LastResidue(TWO32, cap);
        RemIsRemainder(TWO32 - 1, cap);
      } else {
        RemStepDown(r.tail + 1, r.head + r.size, cap);
      }
    }
  }

  lemma RemIsRemainder(a: nat, cap: nat)
    requires cap > 0
    ensures Rem(a, cap) == a % cap
  {
  }

  lemma RemStepDown(a: nat, b: nat, cap: nat)
    requires 0 < a && 0 < b && 0 < cap && Rem(a, cap) == Rem(b, cap)
    ensures Rem(a - 1, cap) == Rem(b - 1, cap)
  {
    hide Rem;
    RemIsRemainder(a, cap);
    RemIsRemainder(b, cap);
    RemIsRemainder(a - 1, cap);
    RemIsRemainder(b - 1, cap);
    StepDown(a, b, cap);
  }

  /** The largest unsigned number is one short of a multiple of the capacity exactly if the capacity divides 2^32. */
  lemma LastResidue(w: nat, cap: nat)
    requires w > 0 && cap > 0
    ensures (w - 1) % cap == cap - 1 <==> w % cap == 0
  {
    var q, m := (w - 1) / cap, (w - 1) % cap;
    assert w == cap * q + (m + 1);
    if m + 1 < cap {
      Residue(w, q, m + 1, cap);
    } else {
      assert w == cap * (q + 1) + 0;
      Residue(w, q + 1, 0, cap);
    }
  }

  lemma StepDown(a: nat, b: nat, cap: nat)
    requires 0 < a && 0 < b && 0 < cap && a % cap == b % cap
    ensures (a - 1) % cap == (b - 1) % cap
  {
    Before(a, cap);
    Before(b, cap);
  }

  lemma Before(a: nat, cap: nat)
    requires 0 < a && 0 < cap
    ensures (a - 1) % cap == if a % cap == 0 then cap - 1 else a % cap - 1
  {
    var q, m := a / cap, a % cap;
    assert a == cap * q + m;
    if m > 0 {
      Residue(a - 1, q, m - 1, cap);
    } else {
      assert a - 1 == cap * (q - 1) + (cap - 1);
      Residue(a - 1, q - 1, cap - 1, cap);
    }
  }

  lemma ResetIsEmpty<T>(buff: seq<T>)
    requires 0 < |buff| <= TWO31
    ensures Sound(Reset(buff)) && Abstract(Reset(buff)) == Deque([], |buff|)
  {
    hide Rem, U32;
  }

  // ----- runs -----

  function Run<T>(r: Ring<T>, ops: seq<Op<T>>): Ring<T>
    requires 0 < |r.buff| <= TWO31 && forall op :: op in ops ==> Allowed(op)
    decreases |ops|
  {
    if ops == [] then r else Run(Do(r, ops[0]), ops[1..])
  }

  function DequeRun<T>(d: Deque<T>, ops: seq<Op<T>>): Deque<T>
    decreases |ops|
  {
    if ops == [] then d else DequeRun(DequeDo(d, ops[0]), ops[1..])
  }

  /** Every removal at the back that the run comes to meets its guard. */
  predicate GuardedPops<T>(r: Ring<T>, ops: seq<Op<T>>)
    requires 0 < |r.buff| <= TWO31 && forall op :: op in ops ==> Allowed(op)
    decreases |ops|
  {
    ops == [] || ((ops[0].PopBack? ==> PopKeepsStep(r)) && GuardedPops(Do(r, ops[0]), ops[1..]))
  }

  /** The indices are in step before, between and after the operations. */
  predicate StaysInStep<T>(r: Ring<T>, ops: seq<Op<T>>)
    requires 0 < |r.buff| <= TWO31 && forall op :: op in ops ==> Allowed(op)
    decreases |ops|
  {
    Sound(r) && (ops == [] || StaysInStep(Do(r, ops[0]), ops[1..]))
  }

  function CapAfter<T>(cap: nat, op: Op<T>): nat {
    if op.Resize? then |op.buff| else cap
  }

  /** Elements are removed at the back only while the capacity divides 2^32. */
  predicate PopsOnDividing<T>(cap: nat, ops: seq<Op<T>>)
    decreases |ops|
  {
    ops == [] || ((ops[0].PopBack? && cap > 0 ==> TWO32 % cap == 0) && PopsOnDividing(CapAfter(cap, ops[0]), ops[1..]))
  }

  lemma StepRefines<T>(r: Ring<T>, op: Op<T>)
    requires Sound(r) && Allowed(op) && (op.PopBack? ==> PopKeepsStep(r))
    ensures Sound(Do(r, op)) && Abstract(Do(r, op)) == DequeDo(Abstract(r), op)
    ensures |Do(r, op).buff| == CapAfter(|r.buff|, op)
  {
    hide Congruent, Abstract, DequeDo, DoPushBack, DoPushFront, DoPopFront, DoPopBack;
    match op
    case PushBack(x) =>
      PushBackRefines(r, x);
      SameCapacity(r, op);
    case PushFront(x) =>
      PushFrontRefines(r, x);
      SameCapacity(r, op);
    case PopFront =>
      PopFrontRefines(r);
      SameCapacity(r, op);
    case PopBack =>
      PopBackRefines(r);
      PopBackKeepsStep(r);
      SameCapacity(r, op);
    case Clear => ClearRefines(r);
    case Resize(buff) => ResizeRefines(r, buff);
  }

  /** A ring in step stays so and then shows what the operation makes of the deque. */
  predicate ActsAs<T(==)>(r: Ring<T>, op: Op<T>, r': Ring<T>) {
    Sound(r) ==> Sound(r') && Abstract(r') == DequeDo(Abstract(r), op)
  }

  lemma Acts<T>(r: Ring<T>, op: Op<T>)
    requires InRange(r) && Allowed(op) && !op.PopBack?
    ensures ActsAs(r, op, Do(r, op))
  {
    hide Congruent, Abstract, DequeDo, Do;
    if Sound(r) {
      StepRefines(r, op);
    }
  }

  lemma SameCapacity<T>(r: Ring<T>, op: Op<T>)
    requires 0 < |r.buff| <= TWO31 && Allowed(op) && !op.Resize?
    ensures |Do(r, op).buff| == |r.buff|
  {
    hide Rem, U32;
  }

  lemma ClearRefines<T>(r: Ring<T>)
    requires Sound(r)
    ensures Sound(Reset(r.buff)) && Abstract(Reset(r.buff)) == DequeDo(Abstract(r), Clear)
  {
    ResetIsEmpty(r.buff);
  }

  lemma ResizeRefines<T>(r: Ring<T>, buff: seq<T>)
    requires Sound(r) && 0 < |buff| <= TWO31
    ensures Sound(Reset(buff)) && Abstract(Reset(buff)) == DequeDo(Abstract(r), Resize(buff))
  {
    ResetIsEmpty(buff);
  }

  /** Over every run of operations whose removals at the back meet the guard, the ring shows the bounded deque. */
  lemma {:induction false} RunRefines<T>(r: Ring<T>, ops: seq<Op<T>>)
    requires Sound(r) && (forall op :: op in ops ==> Allowed(op)) && GuardedPops(r, ops)
    ensures Sound(Run(r, ops)) && Abstract(Run(r, ops)) == DequeRun(Abstract(r), ops)
    decreases |ops|
  {
    hide Congruent, Abstract, DequeDo, Do, PopKeepsStep;
    if ops != [] {
      StepRefines(r, ops[0]);
      RunRefines(Do(r, ops[0]), ops[1..]);
    }
  }

  function Pushes<T>(xs: seq<T>): seq<Op<T>> {
    if xs == [] then [] else Pushes(xs[..|xs| - 1]) + [PushBack(xs[|xs| - 1])]
  }

  lemma {:induction false} PushesOnly<T>(xs: seq<T>)
    ensures forall op :: op in Pushes(xs) ==> op.PushBack?
  {
    if xs != [] {
      PushesOnly(xs[..|xs| - 1]);
    }
  }

  lemma {:induction false} RunOneMore<T>(d: Deque<T>, ops: seq<Op<T>>, op: Op<T>)
    ensures DequeRun(d, ops + [op]) == DequeDo(DequeRun(d, ops), op)
    decreases |ops|
  {
    hide DequeDo;
    if ops == [] {
      assert ops + [op] == [op] && [op][1..] == [];
      assert DequeRun(d, [op]) == DequeRun(DequeDo(d, op), []);
    } else {
      assert (ops + [op])[1..] == ops[1..] + [op];
      RunOneMore(DequeDo(d, ops[0]), ops[1..], op);
    }
  }

  lemma {:induction false} PushedDeque<T>(cap: nat, xs: seq<T>)
    requires cap > 0
    ensures DequeRun(Deque([], cap), Pushes(xs)) == Deque(Newest(xs, cap), cap)
  {
    hide DequeDo, DequeRun;
    if xs == [] {
      var d: Deque<T> := Deque([], cap);
      NoOps(d);
    } else {
      var k := |xs| - 1;
      PushedDeque(cap, xs[..k]);
      RunOneMore(Deque([], cap), Pushes(xs[..k]), PushBack(xs[k]));
      DequeMeaning(Newest(xs[..k], cap), cap, xs[k]);
      assert xs == xs[..k] + [xs[k]];
      assert Newest(Newest(xs[..k], cap) + [xs[k]], cap) == Newest(xs, cap);
    }
  }

  lemma NoOps<T>(d: Deque<T>)
    ensures DequeRun(d, []) == d
  {
  }

  lemma {:induction false} PushesAreGuarded<T>(r: Ring<T>, ops: seq<Op<T>>)
    requires 0 < |r.buff| <= TWO31 && forall op :: op in ops ==> op.PushBack?
    ensures (forall op :: op in ops ==> Allowed(op)) && GuardedPops(r, ops)
    decreases |ops|
  {
    hide PopKeepsStep, Rem, U32;
    if ops != [] {
      assert ops[0] in ops;
      SameCapacity(r, ops[0]);
      PushesAreGuarded(Do(r, ops[0]), ops[1..]);
    }
  }

  /** Whatever is pushed at the back of an empty ring, it ends up with the newest elements that fit, in order. */
  lemma KeepsNewest<T>(buff: seq<T>, xs: seq<T>)
    requires 0 < |buff| <= TWO31
    ensures (forall op :: op in Pushes(xs) ==> Allowed(op))
            && Shows(Run(Reset(buff), Pushes(xs)), Deque(Newest(xs, |buff|), |buff|))
  {
    hide Run, DequeRun, Abstract, Congruent, GuardedPops, Pushes, Newest;
    PushesOnly(xs);
    ResetIsEmpty(buff);
    PushesAreGuarded(Reset(buff), Pushes(xs));
    RunRefines(Reset(buff), Pushes(xs));
    PushedDeque(|buff|, xs);
  }

  /** The guard is what it takes: a run stays in step all along exactly if every removal at the back meets it. */
  lemma {:induction false} InStepExactly<T>(r: Ring<T>, ops: seq<Op<T>>)
    requires Sound(r) && forall op :: op in ops ==> Allowed(op)
    ensures StaysInStep(r, ops) <==> GuardedPops(r, ops)
    decreases |ops|
  {
    hide Congruent, Abstract, DequeDo, Do, PopKeepsStep;
    if ops != [] {
      var r' := Do(r, ops[0]);
      if ops[0].PopBack? && !PopKeepsStep(r) {
        PopBackOutOfStep(r, ops);
      } else {
        StepRefines(r, ops[0]);
        InStepExactly(r', ops[1..]);
      }
    }
  }

  lemma PopBackOutOfStep<T>(r: Ring<T>, ops: seq<Op<T>>)
    requires Sound(r) && ops != [] && (forall op :: op in ops ==> Allowed(op))
    requires ops[0].PopBack? && !PopKeepsStep(r)
    ensures !StaysInStep(r, ops)
  {
    hide Congruent, PopKeepsStep;
    PopBackKeepsStep(r);
    assert Do(r, ops[0]) == DoPopBack(r);
    assert !Sound(DoPopBack(r));
  }

  /** On capacities that divide 2^32 the guard always holds, so removals at the back need no care. */
  lemma {:induction false} DividingPopsAreGuarded<T>(r: Ring<T>, ops: seq<Op<T>>)
    requires Sound(r) && (forall op :: op in ops ==> Allowed(op)) && PopsOnDividing(|r.buff|, ops)
    ensures GuardedPops(r, ops)
    decreases |ops|
  {
    hide Congruent, Abstract, DequeDo, Do;
    if ops != [] {
      StepRefines(r, ops[0]);
      DividingPopsAreGuarded(Do(r, ops[0]), ops[1..]);
    }
  }

  lemma RunRefinesOnDividing<T>(r: Ring<T>, ops: seq<Op<T>>)
    requires Sound(r) && (forall op :: op in ops ==> Allowed(op)) && PopsOnDividing(|r.buff|, ops)
    ensures Sound(Run(r, ops)) && Abstract(Run(r, ops)) == DequeRun(Abstract(r), ops)
  {
    hide Run, DequeRun, Abstract, Congruent;
    DividingPopsAreGuarded(r, ops);
    RunRefines(r, ops);
  }

  /** A run that never changes the capacity shows what the deque shows. */
  ghost predicate Faithful<T>(buff: seq<T>, ops: seq<Op<T>>)
    requires 0 < |buff| <= TWO31
  {
    (forall op :: op in ops ==> !op.Resize?) ==>
      Shows(Run(Reset(buff), ops), DequeRun(Deque([], |buff|), ops))
  }

  ghost predicate Shows<T>(r: Ring<T>, d: Deque<T>) {
    |r.buff| > 0 && Abstract(r) == d
  }

  lemma {:induction false} NoResizeOnDividing<T>(cap: nat, ops: seq<Op<T>>)
    requires cap > 0 && TWO32 % cap == 0 && forall op :: op in ops ==> !op.Resize?
    ensures PopsOnDividing(cap, ops)
    decreases |ops|
  {
    if ops != [] {
      NoResizeOnDividing(cap, ops[1..]);
    }
  }

  /** The unsigned underflow of the tail is harmless in every run exactly if the capacity divides 2^32. */
  lemma AlwaysFaithfulExactly<T(!new)>(buff: seq<T>, x: T, y: T)
    requires 0 < |buff| <= TWO31 && x != y
    ensures (forall ops: seq<Op<T>> :: Faithful(buff, ops)) <==> TWO32 % |buff| == 0
  {
    hide Run, DequeRun, Abstract, Congruent;
    if TWO32 % |buff| == 0 {
      forall ops: seq<Op<T>> ensures Faithful(buff, ops) {
        if forall op :: op in ops ==> !op.Resize? {
          NoResizeOnDividing(|buff|, ops);
          ResetIsEmpty(buff);
          RunRefinesOnDividing(Reset(buff), ops);
        }
      }
    } else {
      var ops := Misplacing(x, y);
      MisplacedPush(buff, x, y);
      assert !Faithful(buff, ops);
    }
  }

  /** Two elements in, both out at the back, one more in. */
  function Misplacing<T>(x: T, y: T): seq<Op<T>> {
    [PushBack(x), PushFront(y), PopBack, PopBack, PushBack(x)]
  }

  lemma MisplacedPush<T>(buff: seq<T>, x: T, y: T)
    requires 0 < |buff| <= TWO31 && TWO32 % |buff| != 0 && x != y
    ensures !Shows(Run(Reset(buff), Misplacing(x, y)), DequeRun(Deque([], |buff|), Misplacing(x, y)))
  {
    hide Run, DequeRun, Rem, U32, Contents;
    var cap := |buff|;
    SmallDivisors();
    var r2 := Ring(buff[0 := x][cap - 1 := y], cap - 1, 0, 2);
    var r4 := Ring(r2.buff, cap - 1, NO_TAIL - 1, 0);
    MisplacedRun(buff, x, y);
    MisplacedDeque(cap, x, y);
    var r5 := DoPushBack(r4, x);
    LastResidue(TWO32, cap);
    RemIsRemainder(TWO32 - 1, cap);
    ContentsAt(r5, 0);
    assert Contents(r5)[0] == y;
  }

  lemma MisplacedRun<T>(buff: seq<T>, x: T, y: T)
    requires 3 <= |buff| <= TWO31
    ensures var r4 := Ring(buff[0 := x][|buff| - 1 := y], |buff| - 1, NO_TAIL - 1, 0);
            Run(Reset(buff), Misplacing(x, y)) == DoPushBack(r4, x)
  {
    hide Rem, U32, DoPushBack, DoPushFront, DoPopBack;
    var cap, ops := |buff|, Misplacing(x, y);
    var r1 := Ring(buff[0 := x], 0, 0, 1);
    var r2 := Ring(buff[0 := x][cap - 1 := y], cap - 1, 0, 2);
    var r3 := Ring(r2.buff, cap - 1, NO_TAIL, 1);
    var r4 := Ring(r2.buff, cap - 1, NO_TAIL - 1, 0);
    MisplacedSteps(buff, x, y);
    SameCapacity(r4, PushBack(x));
    assert ops[1..][1..] == ops[2..] && ops[2..][1..] == ops[3..] && ops[3..][1..] == ops[4..] && ops[4..][1..] == [];
    assert Run(r4, ops[4..]) == Run(DoPushBack(r4, x), []);
    assert Run(r3, ops[3..]) == Run(r4, ops[4..]);
    assert Run(r2, ops[2..]) == Run(r3, ops[3..]);
    assert Run(r1, ops[1..]) == Run(r2, ops[2..]);
  }

  lemma MisplacedSteps<T>(buff: seq<T>, x: T, y: T)
    requires 3 <= |buff| <= TWO31
    ensures var cap, b := |buff|, buff[0 := x][|buff| - 1 := y];
            && DoPushBack(Reset(buff), x) == Ring(buff[0 := x], 0, 0, 1)
            && DoPushFront(Ring(buff[0 := x], 0, 0, 1), y) == Ring(b, cap - 1, 0, 2)
            && DoPopBack(Ring(b, cap - 1, 0, 2)) == Ring(b, cap - 1, NO_TAIL, 1)
            && DoPopBack(Ring(b, cap - 1, NO_TAIL, 1)) == Ring(b, cap - 1, NO_TAIL - 1, 0)
  {
    hide Rem, U32;
  }

  lemma MisplacedDeque<T>(cap: nat, x: T, y: T)
    requires cap >= 3
    ensures DequeRun(Deque([], cap), Misplacing(x, y)) == Deque([x], cap)
  {
    hide DequeDo;
    var ops := Misplacing(x, y);
    var d0: Deque<T> := Deque([], cap);
    DequeSteps(cap, x, y);
    assert ops[1..][1..] == ops[2..] && ops[2..][1..] == ops[3..] && ops[3..][1..] == ops[4..] && ops[4..][1..] == [];
    assert DequeRun(d0, ops[4..]) == DequeRun(Deque([x], cap), []);
    assert DequeRun(Deque([y], cap), ops[3..]) == DequeRun(d0, ops[4..]);
    assert DequeRun(Deque([y, x], cap), ops[2..]) == DequeRun(Deque([y], cap), ops[3..]);
    assert DequeRun(Deque([x], cap), ops[1..]) == DequeRun(Deque([y, x], cap), ops[2..]);
  }

  lemma DequeSteps<T>(cap: nat, x: T, y: T)
    requires cap >= 3
    ensures var d0: Deque<T> := Deque([], cap);
            && DequeDo(d0, PushBack(x)) == Deque([x], cap)
            && DequeDo(Deque([x], cap), PushFront(y)) == Deque([y, x], cap)
            && DequeDo(Deque([y, x], cap), PopBack) == Deque([y], cap)
            && DequeDo(Deque([y], cap), PopBack) == d0
  {
  }

  lemma SmallDivisors()
    ensures TWO32 % 1 == 0 && TWO32 % 2 == 0
  {
  }

  // ----- back and block reads -----

  /** Has something been pushed at the back since the last reset, and the tail not been taken below slot 0 after that? */
  predicate BackKnown<T>(r: Ring<T>, ops: seq<Op<T>>, known: bool)
    requires 0 < |r.buff| <= TWO31 && forall op :: op in ops ==> Allowed(op)
    decreases |ops|
  {
    if ops == [] then known else
    var stillKnown :=
      match ops[0]
      case PushBack(_) => true
      case PushFront(_) => known
      case PopFront => known
      case PopBack => known && (r.size == 0 || r.tail != 0)
      case Clear => false
      case Resize(_) => false;
    BackKnown(Do(r, ops[0]), ops[1..], stillKnown)
  }

  /** In step and in range, the tail is the slot of the last element. */
  lemma BackIsLast<T>(r: Ring<T>)
    requires Sound(r) && r.tail < |r.buff| && r.size > 0
    ensures r.buff[r.tail] == Contents(r)[r.size - 1]
  {
    hide Rem, U32, Contents;
    ContentsAt(r, r.size - 1);
  }

  lemma {:induction false} BackAfterRun<T>(r: Ring<T>, ops: seq<Op<T>>, known: bool)
    requires Sound(r) && (known ==> r.tail < |r.buff|)
    requires (forall op :: op in ops ==> Allowed(op)) && GuardedPops(r, ops)
    ensures BackKnown(r, ops, known) ==> Run(r, ops).tail < |Run(r, ops).buff|
    decreases |ops|
  {
    hide Congruent, Abstract, DequeDo, DoPushBack, DoPushFront, DoPopFront, DoPopBack, PopKeepsStep;
    if ops != [] {
      var op, r' := ops[0], Do(r, ops[0]);
      StepRefines(r, op);
      match op
      case PushBack(x) =>
        PushBackRefines(r, x);
        BackAfterRun(r', ops[1..], true);
      case PushFront(x) =>
        PushFrontRefines(r, x);
        BackAfterRun(r', ops[1..], known);
      case PopFront =>
        PopFrontRefines(r);
        BackAfterRun(r', ops[1..], known);
      case PopBack =>
        if known && (r.size == 0 || r.tail != 0) {
          PopBackTail(r);
        }
        BackAfterRun(r', ops[1..], known && (r.size == 0 || r.tail != 0));
      case Clear => BackAfterRun(r', ops[1..], false);
      case Resize(_) => BackAfterRun(r', ops[1..], false);
    }
  }

  lemma PopBackTail<T>(r: Ring<T>)
    requires InRange(r) && r.tail < |r.buff| && (r.size == 0 || r.tail != 0)
    ensures DoPopBack(r).tail < |r.buff|
  {
    hide Rem, U32;
  }

  /** `back()` is the last element once something was pushed at the back since the last reset. */
  lemma BackIsLastAfterRun<T>(buff: seq<T>, ops: seq<Op<T>>)
    requires 0 < |buff| <= TWO31 && (forall op :: op in ops ==> Allowed(op)) && GuardedPops(Reset(buff), ops)
    requires BackKnown(Reset(buff), ops, false) && Run(Reset(buff), ops).size > 0
    ensures var r := Run(Reset(buff), ops);
            r.tail < |r.buff| && r.buff[r.tail] == Contents(r)[r.size - 1]
  {
    hide Run, Contents, Abstract, GuardedPops, BackKnown;
    ResetIsEmpty(buff);
    RunRefines(Reset(buff), ops);
    BackAfterRun(Reset(buff), ops, false);
    BackIsLast(Run(Reset(buff), ops));
  }

  /** What the block read copies out: consecutive slots, around the end of the buffer. */
  function Block<T>(r: Ring<T>, from: nat, len: nat): (s: seq<T>)
    requires 0 < |r.buff|
    ensures |s| == len
  {
    seq(len, i requires 0 <= i => r.buff[Rem(from + i, |r.buff|)])
  }

  lemma BlockStraight<T>(r: Ring<T>, from: nat, len: nat)
    requires from < |r.buff| && from + len <= |r.buff|
    ensures Block(r, from, len) == r.buff[from..from + len]
  {
    hide Rem;
    forall i | 0 <= i < len ensures Block(r, from, len)[i] == r.buff[from..from + len][i] {
      assert Rem(from + i, |r.buff|) == from + i;
    }
  }

  lemma BlockAround<T>(r: Ring<T>, from: nat, len: nat)
    requires from < |r.buff| && len <= |r.buff| < from + len
    ensures Block(r, from, len) == r.buff[from..] + r.buff[..len - (|r.buff| - from)]
  {
    hide Rem;
    var first := |r.buff| - from;
    forall i | 0 <= i < len ensures Block(r, from, len)[i] == (r.buff[from..] + r.buff[..len - first])[i] {
      assert Rem(from + i, |r.buff|) == if i < first then from + i else i - first;
    }
  }

  /** Started at the slot of the k-th element it returns the elements from the k-th on. */
  lemma BlockOfElements<T>(r: Ring<T>, k: nat, len: nat)
    requires InRange(r) && k + len <= r.size
    ensures Block(r, Slot(r, k), len) == Contents(r)[k..k + len]
  {
    hide Contents, Rem;
    var from := Slot(r, k);
    forall i | 0 <= i < len ensures Block(r, from, len)[i] == Contents(r)[k..k + len][i] {
      ContentsAt(r, k + i);
      assert Rem(from + i, |r.buff|) == Slot(r, k + i);
      assert Contents(r)[k..k + len][i] == Contents(r)[k + i];
    }
  }
}
