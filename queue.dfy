/** The circular queue of upcoming pieces (FilaCircular). */
module Queues {
  import opened Pieces

  const QUEUE_CAPACITY := 5

  /** The array slot holding logical position `k` of a ring whose front is at `front`. */
  function Slot(front: int, k: int): int
  {
    (front + k) % QUEUE_CAPACITY
  }

  /** The front-to-back view of a ring: the `size` slots starting at `front`, wrapping around. */
  function RingView(slots: seq<Piece>, front: int, size: int): (r: seq<Piece>)
    requires |slots| == QUEUE_CAPACITY && 0 <= front < QUEUE_CAPACITY && 0 <= size <= QUEUE_CAPACITY
    ensures |r| == size
  {
    seq(size, i requires 0 <= i < size => slots[Slot(front, i)])
  }

  /** The first `QUEUE_CAPACITY` logical positions occupy distinct slots. */
  lemma SlotInjective(front: int, j: int, k: int)
    requires 0 <= front < QUEUE_CAPACITY && 0 <= j < k < QUEUE_CAPACITY
    ensures 0 <= Slot(front, j) < QUEUE_CAPACITY && Slot(front, j) != Slot(front, k)
  {
  }

  /** Writing the slot just past the back appends to the view. */
  lemma RingViewPush(slots: seq<Piece>, front: int, size: int, p: Piece)
    requires |slots| == QUEUE_CAPACITY && 0 <= front < QUEUE_CAPACITY && 0 <= size < QUEUE_CAPACITY
    ensures RingView(slots[Slot(front, size) := p], front, size + 1) == RingView(slots, front, size) + [p]
  {
    var after := slots[Slot(front, size) := p];
    forall i | 0 <= i < size
      ensures after[Slot(front, i)] == slots[Slot(front, i)]
    {
      SlotInjective(front, i, size);
    }
  }

  /** Advancing the front drops the head of the view. */
  lemma RingViewPop(slots: seq<Piece>, front: int, size: int)
    requires |slots| == QUEUE_CAPACITY && 0 <= front < QUEUE_CAPACITY && 0 < size <= QUEUE_CAPACITY
    ensures RingView(slots, (front + 1) % QUEUE_CAPACITY, size - 1) == RingView(slots, front, size)[1..]
  {
    var view := RingView(slots, front, size);
    var after := RingView(slots, (front + 1) % QUEUE_CAPACITY, size - 1);
    forall i | 0 <= i < size - 1
      ensures after[i] == view[i + 1]
    {
      assert Slot((front + 1) % QUEUE_CAPACITY, i) == Slot(front, i + 1);
    }
  }

  /** Overwriting the front slot replaces the head of the view and nothing else. */
  lemma RingViewSetFront(slots: seq<Piece>, front: int, size: int, p: Piece)
    requires |slots| == QUEUE_CAPACITY && 0 <= front < QUEUE_CAPACITY && 0 < size <= QUEUE_CAPACITY
    ensures RingView(slots[front := p], front, size) == [p] + RingView(slots, front, size)[1..]
  {
    assert Slot(front, 0) == front;
    forall i | 1 <= i < size
      ensures slots[front := p][Slot(front, i)] == slots[Slot(front, i)]
    {
      SlotInjective(front, 0, i);
    }
  }

  class CircularQueue {
    const items: array<Piece>
    var front: int
    var rear: int
    var size: int

    /** Bounds of the indices, and `rear` is the slot of the last logical position. */
    ghost predicate Valid()
      reads this
    {
      items.Length == QUEUE_CAPACITY &&
      0 <= size <= QUEUE_CAPACITY &&
      0 <= front < QUEUE_CAPACITY &&
      0 <= rear < QUEUE_CAPACITY &&
      rear == (front + size + QUEUE_CAPACITY - 1) % QUEUE_CAPACITY
    }

    /** The queue from front to back. */
    ghost function Contents(): seq<Piece>
      reads this, items
      requires Valid()
    {
      RingView(items[..], front, size)
    }

    /** inicializarFila: an empty queue whose back is the last slot. */
    constructor Init()
      ensures Valid() && fresh(items)
      ensures front == 0 && rear == QUEUE_CAPACITY - 1 && size == 0
      ensures Contents() == []
    {
      items := new Piece[QUEUE_CAPACITY];
      front := 0;
      rear := QUEUE_CAPACITY - 1;
      size := 0;
    }

    /** preencherFilaInicial: fills every slot with a newly generated piece, in slot order. */
    method FillInitial(g: PieceGenerator)
      requires items.Length == QUEUE_CAPACITY
      modifies this, items, g
      ensures Valid()
      ensures front == 0 && rear == QUEUE_CAPACITY - 1 && size == QUEUE_CAPACITY
      ensures g.counter == old(g.counter) + QUEUE_CAPACITY
      ensures Contents() == Generated(g.draws, old(g.counter), QUEUE_CAPACITY)
    {
      for i := 0 to QUEUE_CAPACITY
        invariant g.counter == old(g.counter) + i
        invariant items[..i] == Generated(g.draws, old(g.counter), i)
      {
        var p := g.Generate();
        items[i] := p;
        assert items[..i + 1] == items[..i] + [p];
      }
      front := 0;
      rear := QUEUE_CAPACITY - 1;
      size := QUEUE_CAPACITY;
      assert items[..] == items[..QUEUE_CAPACITY];
    }

    /** filaVazia */
    predicate IsEmpty()
      reads this, items
      requires Valid()
      ensures IsEmpty() <==> Contents() == []
    {
      size == 0
    }

    /** filaCheia */
    predicate IsFull()
      reads this, items
      requires Valid()
      ensures IsFull() <==> |Contents()| == QUEUE_CAPACITY
    {
      size == QUEUE_CAPACITY
    }

    /** enfileirar: appends `p` at the back unless the queue is full. */
    method Enqueue(p: Piece) returns (ok: bool)
      requires Valid()
      modifies this, items
      ensures Valid()
      ensures ok == !old(IsFull())
      ensures !ok ==> unchanged(this) && unchanged(items)
      ensures ok ==> rear == (old(rear) + 1) % QUEUE_CAPACITY && items[..] == old(items[..])[rear := p]
      ensures ok ==> front == old(front) && size == old(size) + 1
      ensures Contents() == if ok then old(Contents()) + [p] else old(Contents())
    {
      if IsFull() {
        return false;
      }
      assert (rear + 1) % QUEUE_CAPACITY == Slot(front, size);
      RingViewPush(items[..], front, size, p);
      rear := (rear + 1) % QUEUE_CAPACITY;
      items[rear] := p;
      size := size + 1;
      return true;
    }

    /** desenfileirar: removes and returns the front piece unless the queue is empty. */
    method Dequeue() returns (r: Option<Piece>)
      requires Valid()
      modifies this
      ensures Valid()
      ensures r.Some? == !old(IsEmpty())
      ensures r.None? ==> unchanged(this)
      ensures r.Some? ==> r.value == old(Contents())[0] && Contents() == old(Contents())[1..]
      ensures r.Some? ==> front == (old(front) + 1) % QUEUE_CAPACITY && rear == old(rear) && size == old(size) - 1
    {
      if IsEmpty() {
        return None;
      }
      RingViewPop(items[..], front, size);
      r := Some(items[front]);
      front := (front + 1) % QUEUE_CAPACITY;
      size := size - 1;
    }

    /** frenteFila: the front piece; the caller must know the queue is not empty. */
    function Front(): (p: Piece)
      reads this, items
      requires Valid() && !IsEmpty()
      ensures p == Contents()[0]
    {
      items[front]
    }
  }

  /** FIFO order: on an empty queue, enqueueing a then b makes a come out first, then b. */
  method FifoOrder(f: CircularQueue, a: Piece, b: Piece) returns (first: Option<Piece>, second: Option<Piece>)
    requires f.Valid() && f.IsEmpty()
    modifies f, f.items
    ensures f.Valid() && first == Some(a) && second == Some(b) && f.Contents() == []
  {
    var _ := f.Enqueue(a);
    var _ := f.Enqueue(b);
    first := f.Dequeue();
    second := f.Dequeue();
  }
}
