/**
 * DisposableHolder<T>: a reference counter around a disposable value. `count` is the number of
 * shares handed out; -1 is the dead state, after which Increase and Decrease do nothing. The
 * value's own Dispose is counted in `disposals`.
 */
module RefCount {
  import opened Drawing

  /** The state of one holder: its value, `_count`, and how often the value was disposed. */
  datatype Holder = Holder(value: Image, count: int, disposals: nat)

  /** A new holder: no shares yet, the value not disposed. */
  function NewHolder(value: Image): Holder {
    Holder(value, 0, 0)
  }

  predicate Dead(h: Holder) {
    h.count < 0
  }

  /** Increase: a dead holder stays as it is; otherwise one more share. */
  function Increased(h: Holder): (r: Holder)
    ensures r.value == h.value && r.disposals == h.disposals
    ensures Dead(r) <==> Dead(h)
  {
    if h.count < 0 then h else h.(count := h.count + 1)
  }

  /** Dispose: the holder becomes dead and its value is disposed, whatever the state was. */
  function Disposed(h: Holder): (r: Holder)
    ensures Dead(r) && r.value == h.value
  {
    Holder(h.value, -1, h.disposals + 1)
  }

  /**
   * Decrease: a dead holder stays as it is; otherwise one share less, and the holder disposes
   * itself when that leaves none.
   */
  function Decreased(h: Holder): (r: Holder)
    ensures r.value == h.value
  {
    if h.count < 0 then h
    else if h.count - 1 == 0 then Disposed(h.(count := 0))
    else h.(count := h.count - 1)
  }

  /** `n` Decrease calls in a row. */
  function DecreasedN(h: Holder, n: nat): (r: Holder)
    ensures r.value == h.value
    decreases n
  {
    if n == 0 then h else DecreasedN(Decreased(h), n - 1)
  }

  /** One more Decrease after n of them. */
  lemma {:induction false} DecreasedNSnoc(h: Holder, n: nat)
    ensures DecreasedN(h, n + 1) == Decreased(DecreasedN(h, n))
    decreases n
  {
    if n > 0 {
      DecreasedNSnoc(Decreased(h), n - 1);
    }
  }

  /** Decrease of the last share disposes the value exactly once and kills the holder. */
  lemma DecreaseLastShare(h: Holder)
    requires h.count == 1
    ensures Decreased(h) == Holder(h.value, -1, h.disposals + 1)
  {
  }

  /**
   * Decrease on a holder nobody ever increased kills it without disposing the value: the value
   * leaks.
   */
  lemma DecreaseUnshared(h: Holder)
    requires h.count == 0
    ensures Dead(Decreased(h)) && Decreased(h).count == -1
    ensures Decreased(h).disposals == h.disposals
  {
  }

  /** With two or more shares, Decrease drops one and disposes nothing. */
  lemma DecreaseShared(h: Holder)
    requires h.count >= 2
    ensures Decreased(h) == h.(count := h.count - 1)
  {
  }

  /** Increase and Decrease leave a dead holder unchanged. */
  lemma DeadUnchanged(h: Holder)
    requires Dead(h)
    ensures Increased(h) == h && Decreased(h) == h
  {
  }

  /** Dispose is not idempotent: a second call disposes the value again. */
  lemma DisposeTwice(h: Holder)
    ensures Disposed(Disposed(h)).disposals == h.disposals + 2
    ensures Disposed(Disposed(h)).count == Disposed(h).count == -1
  {
  }

  /** Decrease undoes Increase on a live holder that already has a share. */
  lemma DecreaseUndoesIncrease(h: Holder)
    requires h.count >= 1
    ensures Decreased(Increased(h)) == h
  {
  }

  /** Decreasing n times a holder with more than n shares just removes n shares. */
  lemma {:induction false} DecreasedNShared(h: Holder, n: nat)
    requires h.count > n
    ensures DecreasedN(h, n) == h.(count := h.count - n)
    decreases n
  {
    if n > 0 {
      DecreasedNShared(Decreased(h), n - 1);
    }
  }

  /** Decreasing a holder as many times as it has shares disposes its value exactly once. */
  lemma {:induction false} DecreasedNAll(h: Holder, n: nat)
    requires h.count == n && n >= 1
    ensures DecreasedN(h, n) == Holder(h.value, -1, h.disposals + 1)
    decreases n
  {
    if n == 1 {
      assert DecreasedN(Decreased(h), 0) == Decreased(h);
    } else {
      DecreasedNAll(Decreased(h), n - 1);
    }
  }

  /** The two calls a caller may make on a holder it shares. */
  datatype Op = Increase | Decrease

  /** The holder after a sequence of Increase and Decrease calls, in order. */
  function Run(h: Holder, ops: seq<Op>): Holder
    decreases |ops|
  {
    if ops == [] then h
    else Run(if ops[0] == Increase then Increased(h) else Decreased(h), ops[1..])
  }

  /**
   * Over any sequence of Increase and Decrease calls: the count never falls below -1, and the
   * value is disposed at most once, and only if the holder was alive to begin with.
   */
  lemma {:induction false} RunBounds(h: Holder, ops: seq<Op>)
    requires h.count >= -1
    ensures Run(h, ops).count >= -1
    ensures Run(h, ops).disposals <= h.disposals + (if Dead(h) then 0 else 1)
    decreases |ops|
  {
    if ops != [] {
      var next := if ops[0] == Increase then Increased(h) else Decreased(h);
      RunBounds(next, ops[1..]);
    }
  }

  /** Once dead, a holder never changes again under Increase and Decrease. */
  lemma {:induction false} RunDead(h: Holder, ops: seq<Op>)
    requires Dead(h)
    ensures Run(h, ops) == h
    decreases |ops|
  {
    if ops != [] {
      DeadUnchanged(h);
      RunDead(h, ops[1..]);
    }
  }

  /** A new holder is disposed at most once by any sequence of Increase and Decrease calls. */
  lemma NewHolderDisposedAtMostOnce(value: Image, ops: seq<Op>)
    ensures Run(NewHolder(value), ops).disposals <= 1
    ensures Run(NewHolder(value), ops).count >= -1
  {
    RunBounds(NewHolder(value), ops);
  }

  /** DisposableHolder<Bitmap>: one holder object, its fields updated in place. */
  class DisposableHolder {
    const value: Image
    var count: int
    /** How many times value.Dispose() has been called. */
    ghost var disposals: nat

    ghost function State(): Holder
      reads this
    {
      Holder(value, count, disposals)
    }

    constructor (value: Image)
      ensures State() == NewHolder(value)
    {
      this.value := value;
      count := 0;
      disposals := 0;
    }

    method Increase()
      modifies this
      ensures State() == Increased(old(State()))
    {
      if count < 0 {
        return;
      }
      count := count + 1;
    }

    method Decrease()
      modifies this
      ensures State() == Decreased(old(State()))
    {
      if count < 0 {
        return;
      }
      count := count - 1;
      if count == 0 {
        Dispose();
      }
    }

    method Dispose()
      modifies this
      ensures State() == Disposed(old(State()))
    {
      count := -1;
      disposals := disposals + 1;
    }
  }

  /**
   * All the holders the program creates, as values numbered in creation order: an id stands for
   * the reference to one DisposableHolder object, so two grid cells that hold the same id share
   * one holder.
   */
  class Arena {
    var holders: seq<Holder>

    constructor ()
      ensures holders == []
    {
      holders := [];
    }

    /** new DisposableHolder<Bitmap>(value). */
    method Add(value: Image) returns (id: nat)
      modifies this
      ensures holders == old(holders) + [NewHolder(value)] && id == |old(holders)|
    {
      id := |holders|;
      holders := holders + [NewHolder(value)];
    }

    method Increase(id: nat)
      requires id < |holders|
      modifies this
      ensures holders == old(holders)[id := Increased(old(holders)[id])]
    {
      holders := holders[id := Increased(holders[id])];
    }

    method Decrease(id: nat)
      requires id < |holders|
      modifies this
      ensures holders == old(holders)[id := Decreased(old(holders)[id])]
    {
      holders := holders[id := Decreased(holders[id])];
    }
  }
}
