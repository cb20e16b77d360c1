/** The input history ring of a comint session: a circular log of submitted
    lines, newest first, whose element 0 is an empty "staging" entry for the
    line being typed, plus a recall cursor (`offset`) that moves around it. */
module InputRing {
  import opened Wrappers
  import opened CBuffer

  /** Capacity of the underlying circular buffer, staging entry included. */
  const Capacity: nat := 50

  /** The abstract state of a ring: its live contents and the recall cursor. */
  datatype RingState = RingState(ring: seq<string>, offset: int)

  /** A freshly constructed ring. */
  const Initial := RingState([], 0)

  /** The first `n` elements of `s` (all of it when it is shorter). */
  function Take<T>(s: seq<T>, n: nat): (r: seq<T>)
    ensures |r| == if |s| <= n then |s| else n
    ensures r == s[..|r|]
  {
    if |s| <= n then s else s[..n]
  }

  /** Reference meaning of a push: the old front (the staging entry) is
      dropped, `x` and a new empty staging entry go in front, and the result is
      cut down to the capacity. */
  function Pushed(s: seq<string>, x: string): seq<string>
  {
    Take(["", x] + Shift(s), Capacity)
  }

  /** Moving the cursor back in history; it wraps from the last index to 0. */
  function Inc(o: int, len: nat): int
  {
    if o + 1 == len then 0 else o + 1
  }

  /** Moving the cursor forward in history; it wraps from 0 to the last index. */
  function Dec(o: int, len: nat): int
  {
    if o - 1 == -1 then len - 1 else o - 1
  }

  function PushOf(st: RingState, x: string): RingState
  {
    st.(ring := Pushed(st.ring, x))
  }

  function PreviousOf(st: RingState): RingState
  {
    st.(offset := Inc(st.offset, |st.ring|))
  }

  function NextOf(st: RingState): RingState
  {
    st.(offset := Dec(st.offset, |st.ring|))
  }

  /** The entry under the cursor. */
  function Current(st: RingState): Option<string>
  {
    Get(st.ring, st.offset)
  }

  /** A recall in progress (offset > 0) is removed from the ring by rotating
      it to the front, shifting it off and rotating back; the cursor returns
      to the staging entry. */
  function PopAndResetOf(st: RingState): RingState
  {
    if st.offset > 0 then
      RingState(RotateRight(Shift(RotateLeft(st.ring, st.offset)), st.offset), 0)
    else
      st
  }

  /** The ring is within capacity, its front is the staging entry and the
      cursor is on a live entry. */
  predicate Settled(st: RingState)
  {
    |st.ring| <= Capacity && 0 <= st.offset < |st.ring| && st.ring[0] == ""
  }

  /** `n` successive `getPrevious` / `getNext` calls. */
  function Previouses(st: RingState, n: nat): RingState
  {
    if n == 0 then st else PreviousOf(Previouses(st, n - 1))
  }

  function Nexts(st: RingState, n: nat): RingState
    decreases n
  {
    if n == 0 then st else Nexts(NextOf(st), n - 1)
  }

  /** The ring after pushing the lines of `xs`, oldest first, onto `s`. */
  function PushAll(s: seq<string>, xs: seq<string>): seq<string>
  {
    if xs == [] then s else Pushed(PushAll(s, xs[..|xs| - 1]), xs[|xs| - 1])
  }

  function Reversed<T>(xs: seq<T>): (r: seq<T>)
    ensures |r| == |xs|
    ensures forall i :: 0 <= i < |xs| ==> r[i] == xs[|xs| - 1 - i]
  {
    if xs == [] then [] else [xs[|xs| - 1]] + Reversed(xs[..|xs| - 1])
  }

  class ComintInputRing {
    var ring: seq<string>
    var offset: int

    ghost predicate Valid()
      reads this
    {
      |ring| <= Capacity
    }

    function State(): RingState
      reads this
    {
      RingState(ring, offset)
    }

    constructor ()
      ensures Valid() && State() == Initial
    {
      ring := [];
      offset := 0;
    }

    method Push(input: string)
      requires Valid()
      modifies this
      ensures Valid() && State() == PushOf(old(State()), input)
    {
      PushByBufferOperations(ring, input);
      ring := Shift(ring);
      ring := Unshift(input, ring, Capacity);
      ring := Unshift("", ring, Capacity);
    }

    method GetPrevious() returns (v: Option<string>)
      requires Valid()
      modifies this
      ensures Valid() && State() == PreviousOf(old(State()))
      ensures v == Current(State())
    {
      IncOffset();
      v := Get(ring, offset);
    }

    method GetNext() returns (v: Option<string>)
      requires Valid()
      modifies this
      ensures Valid() && State() == NextOf(old(State()))
      ensures v == Current(State())
    {
      DecOffset();
      v := Get(ring, offset);
    }

    method IncOffset()
      modifies this`offset
      ensures offset == Inc(old(offset), |ring|)
      ensures 0 <= old(offset) < |ring| ==> 0 <= offset < |ring|
    {
      offset := offset + 1;
      if offset == |ring| {
        offset := 0;
      }
    }

    method DecOffset()
      modifies this`offset
      ensures offset == Dec(old(offset), |ring|)
      ensures 0 <= old(offset) < |ring| ==> 0 <= offset < |ring|
    {
      offset := offset - 1;
      if offset == -1 {
        offset := |ring| - 1;
      }
    }

    method PopAndReset()
      requires Valid()
      modifies this
      ensures Valid() && State() == PopAndResetOf(old(State()))
      ensures old(offset) >= 0 ==> offset == 0
      ensures old(offset) <= 0 ==> ring == old(ring) && offset == old(offset)
      ensures 0 < old(offset) < |old(ring)| ==>
                ring == old(ring)[..old(offset)] + old(ring)[old(offset) + 1..]
    {
      if offset > 0 {
        if offset < |ring| {
          PopAndResetRemovesEntry(State());
        }
        ring := RotateLeft(ring, offset);
        ring := Shift(ring);
        ring := RotateRight(ring, offset);
        offset := 0;
      }
    }
  }

  /** The three buffer operations of `push` compute the reference `Pushed`. */
  lemma PushByBufferOperations(s: seq<string>, x: string)
    requires |s| <= Capacity
    ensures Unshift("", Unshift(x, Shift(s), Capacity), Capacity) == Pushed(s, x)
  {
    var t := Unshift(x, Shift(s), Capacity);
    assert t == [x] + Shift(s);
    var r := Unshift("", t, Capacity);
    assert |r| == |Pushed(s, x)|;
    forall i | 0 <= i < |r|
      ensures r[i] == Pushed(s, x)[i]
    {
      if i >= 1 {
        assert r[i] == t[i - 1];
      }
    }
  }

  /** After a push the staging entry is in front, the pushed line behind it,
      the older committed entries follow in order, and the capacity holds; a
      full ring loses exactly its oldest entry. */
  lemma PushShape(s: seq<string>, x: string)
    requires |s| <= Capacity
    ensures var r := Pushed(s, x);
      2 <= |r| <= Capacity && r[0] == "" && r[1] == x &&
      (s != [] ==> |r| == if |s| < Capacity then |s| + 1 else Capacity) &&
      (forall i :: 2 <= i < |r| ==> r[i] == s[i - 1])
    ensures |s| == Capacity ==> Pushed(s, x) == ["", x] + s[1..Capacity - 1]
  {
  }

  /** Moving the cursor keeps it on a live entry of a non-empty ring, with
      wrap-around at both ends. */
  lemma CursorWraps(o: int, len: nat)
    requires 0 <= o < len
    ensures 0 <= Inc(o, len) < len && 0 <= Dec(o, len) < len
    ensures Inc(len - 1, len) == 0 && Dec(0, len) == len - 1
  {
  }

  /** `getNext` undoes `getPrevious` and the other way round, and neither
      changes the contents of the ring. */
  lemma NextUndoesPrevious(st: RingState)
    requires st.ring == [] || 0 <= st.offset < |st.ring|
    ensures PreviousOf(st).ring == st.ring && NextOf(st).ring == st.ring
    ensures NextOf(PreviousOf(st)) == st && PreviousOf(NextOf(st)) == st
  {
  }

  /** On an empty ring the cursor leaves the valid range: `getPrevious`
      moves it to 1 and `getNext` to -1, and both find no entry. */
  lemma EmptyRingRecall()
    ensures PreviousOf(Initial) == RingState([], 1) && Current(PreviousOf(Initial)) == None
    ensures NextOf(Initial) == RingState([], -1) && Current(NextOf(Initial)) == None
  {
  }

  lemma PopAndResetRemovesEntry(st: RingState)
    requires 0 < st.offset < |st.ring|
    ensures PopAndResetOf(st) == RingState(st.ring[..st.offset] + st.ring[st.offset + 1..], 0)
  {
    RotateShiftRotateRemoves(st.ring, st.offset);
  }

  /** With the cursor on the staging entry `popAndReset` changes nothing, so
      two calls in a row have the effect of one. */
  lemma PopAndResetIdempotent(st: RingState)
    ensures st.offset >= 0 ==> PopAndResetOf(st).offset == 0
    ensures st.offset <= 0 ==> PopAndResetOf(st) == st
    ensures PopAndResetOf(PopAndResetOf(st)) == PopAndResetOf(st)
  {
  }

  /** Every ring operation keeps a settled ring settled. */
  lemma OperationsKeepSettled(st: RingState, x: string)
    requires Settled(st)
    ensures Settled(PushOf(st, x))
    ensures Settled(PreviousOf(st)) && Settled(NextOf(st))
    ensures Settled(PopAndResetOf(st))
  {
    PushShape(st.ring, x);
    if st.offset > 0 {
      PopAndResetRemovesEntry(st);
    }
  }

  /** Submitting a line (`popAndReset`, then `push`) settles any ring whose
      cursor is not negative, even one whose cursor had run past the end. */
  lemma SubmitSettles(st: RingState, x: string)
    requires |st.ring| <= Capacity && st.offset >= 0
    ensures Settled(PushOf(PopAndResetOf(st), x))
    ensures PushOf(PopAndResetOf(st), x).offset == 0
  {
    PushShape(PopAndResetOf(st).ring, x);
  }

  /** The exception: `getNext` on a fresh ring moves the cursor to -1, which
      neither `popAndReset` nor `push` touches, so submitting then leaves the
      ring unsettled. */
  lemma NextOnFreshRingStaysUnsettled(x: string)
    ensures PushOf(PopAndResetOf(NextOf(Initial)), x) == RingState(["", x], -1)
    ensures !Settled(PushOf(PopAndResetOf(NextOf(Initial)), x))
  {
    assert Pushed([], x) == ["", x];
  }

  lemma TakeCons<T>(x: T, r: seq<T>, n: nat)
    ensures Take([x] + Take(r, n), n + 1) == [x] + Take(r, n)
    ensures Take([x] + r, n + 1) == [x] + Take(r, n)
  {
  }

  /** Pushing the lines `xs`, oldest first, onto a new ring leaves the staging
      entry followed by the newest `Capacity - 1` lines, newest first. */
  lemma {:induction false} History(xs: seq<string>)
    requires xs != []
    ensures PushAll([], xs) == [""] + Take(Reversed(xs), Capacity - 1)
  {
    var x := xs[|xs| - 1];
    var ys := xs[..|xs| - 1];
    assert Reversed(xs) == [x] + Reversed(ys);
    if ys == [] {
      assert PushAll([], xs) == Pushed([], x);
    } else {
      History(ys);
      var prev := PushAll([], ys);
      assert Shift(prev) == Take(Reversed(ys), Capacity - 1);
      calc {
        PushAll([], xs);
        Pushed(prev, x);
        Take([""] + ([x] + Take(Reversed(ys), Capacity - 1)), Capacity);
        { TakeCons("", [x] + Take(Reversed(ys), Capacity - 1), Capacity - 1); }
        [""] + Take([x] + Take(Reversed(ys), Capacity - 1), Capacity - 1);
        { TakeCons(x, Take(Reversed(ys), Capacity - 1), Capacity - 2);
          TakeCons(x, Reversed(ys), Capacity - 2);
          assert Take(Take(Reversed(ys), Capacity - 1), Capacity - 2)
              == Take(Reversed(ys), Capacity - 2); }
        [""] + Take([x] + Reversed(ys), Capacity - 1);
      }
    }
  }

  /** From the staging entry, `n` calls of `getPrevious` put the cursor on
      entry `n`, as long as `n` is below the ring's length; a full round of
      `|ring|` calls comes back to the staging entry. */
  lemma {:induction false} RecallWalksBack(st: RingState, n: nat)
    requires st.offset == 0 && n < |st.ring|
    ensures Previouses(st, n) == st.(offset := n)
  {
    if n > 0 {
      RecallWalksBack(st, n - 1);
    }
  }

  lemma RecallCycles(st: RingState)
    requires st.offset == 0 && |st.ring| > 0
    ensures Previouses(st, |st.ring|) == st
  {
    RecallWalksBack(st, |st.ring| - 1);
  }

  /** `n` calls of `getNext` undo `n` calls of `getPrevious`. */
  lemma {:induction false} NextsUndoPreviouses(st: RingState, n: nat)
    requires 0 <= st.offset < |st.ring|
    ensures Nexts(Previouses(st, n), n) == st
  {
    if n > 0 {
      var p := Previouses(st, n - 1);
      PreviousesStayInRange(st, n - 1);
      NextUndoesPrevious(p);
      assert Nexts(Previouses(st, n), n) == Nexts(p, n - 1);
      NextsUndoPreviouses(st, n - 1);
    }
  }

  lemma {:induction false} PreviousesStayInRange(st: RingState, n: nat)
    requires 0 <= st.offset < |st.ring|
    ensures Previouses(st, n).ring == st.ring
    ensures 0 <= Previouses(st, n).offset < |st.ring|
  {
    if n > 0 {
      PreviousesStayInRange(st, n - 1);
    }
  }

  /** After pushing `xs` onto a new ring, the i-th `getPrevious` returns the
      i-th newest line for every line the ring still holds (the newest
      `Capacity - 1`), and as many `getNext` calls bring the cursor back to the
      staging entry, as they do after a walk over all of `xs`. */
  lemma RecallReturnsHistory(xs: seq<string>, i: nat)
    requires 1 <= i <= |xs| && i < Capacity
    ensures var st := RingState(PushAll([], xs), 0);
      Current(st) == Some("") &&
      Current(Previouses(st, i)) == Some(xs[|xs| - i]) &&
      Nexts(Previouses(st, i), i) == st &&
      Nexts(Previouses(st, |xs|), |xs|) == st
  {
    History(xs);
    var st := RingState(PushAll([], xs), 0);
    var recent := Take(Reversed(xs), Capacity - 1);
    assert st.ring == [""] + recent;
    assert i <= |recent|;
    RecallWalksBack(st, i);
    assert st.ring[i] == recent[i - 1] == Reversed(xs)[i - 1];
    NextsUndoPreviouses(st, i);
    NextsUndoPreviouses(st, |xs|);
  }
}
