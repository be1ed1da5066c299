/**
 * The player actions that move pieces between the queue and the reserve
 * stack, and the inventory invariant they keep: no piece is duplicated and
 * every piece held was handed out by the generator.
 */
module Actions {
  import opened Pieces
  import opened Queues
  import opened Stacks

  /**
   * The inventory invariant over the two views (queue front to back, stack
   * base to top) and the generator's counter: ids are unique across both
   * containers and all of them were issued before the counter.
   */
  ghost predicate Consistent(queue: seq<Piece>, stack: seq<Piece>, counter: int)
  {
    UniqueIds(queue + stack) && IdsBelow(queue + stack, counter)
  }

  // ---------------------------------------------------------------------------
  // The invariant across each action, stated on the views the actions produce.
  // ---------------------------------------------------------------------------

  /** The inventory right after start-up: a freshly filled queue and an empty stack. */
  lemma InitialConsistent(draws: nat -> nat, start: nat)
    ensures Consistent(Generated(draws, start, QUEUE_CAPACITY), [], start + QUEUE_CAPACITY)
  {
    var q := Generated(draws, start, QUEUE_CAPACITY);
    assert q + [] == q;
    GeneratedIds(draws, start, QUEUE_CAPACITY);
  }

  /** Playing the front piece and appending the next generated one keeps the invariant. */
  lemma PlayConsistent(queue: seq<Piece>, stack: seq<Piece>, counter: int, kind: char)
    requires Consistent(queue, stack, counter) && queue != []
    ensures Consistent(queue[1..] + [Piece(kind, counter)], stack, counter + 1)
  {
    var rest := queue[1..] + stack;
    assert queue + stack == [queue[0]] + rest;
    IdBagConcat([queue[0]], rest);
    SubBagIds(queue + stack, rest, counter);
    var after := queue[1..] + [Piece(kind, counter)] + stack;
    assert after == queue[1..] + ([Piece(kind, counter)] + stack);
    IdBagConcat(queue[1..], [Piece(kind, counter)] + stack);
    IdBagConcat([Piece(kind, counter)], stack);
    IdBagConcat(queue[1..], stack);
    assert IdBag(after) == IdBag(rest) + multiset{counter};
    AddIssuedId(rest, after, counter);
  }

  /** Moving the front piece onto the stack and appending the next generated one keeps the invariant. */
  lemma ReserveConsistent(queue: seq<Piece>, stack: seq<Piece>, counter: int, kind: char)
    requires Consistent(queue, stack, counter) && queue != []
    ensures Consistent(queue[1..] + [Piece(kind, counter)], stack + [queue[0]], counter + 1)
  {
    var moved := queue[1..] + stack + [queue[0]];
    var after := queue[1..] + [Piece(kind, counter)] + (stack + [queue[0]]);
    assert queue + stack == [queue[0]] + (queue[1..] + stack);
    IdBagConcat([queue[0]], queue[1..] + stack);
    IdBagConcat(queue[1..] + stack, [queue[0]]);
    assert IdBag(moved) == IdBag(queue + stack);
    assert after == queue[1..] + ([Piece(kind, counter)] + stack + [queue[0]]);
    IdBagConcat(queue[1..], [Piece(kind, counter)] + stack + [queue[0]]);
    IdBagConcat([Piece(kind, counter)] + stack, [queue[0]]);
    IdBagConcat([Piece(kind, counter)], stack);
    IdBagConcat(queue[1..], stack);
    assert IdBag(after) == IdBag(moved) + multiset{counter};
    AddIssuedId(moved, after, counter);
  }

  /** Discarding the top of the stack keeps the invariant. */
  lemma UseConsistent(queue: seq<Piece>, stack: seq<Piece>, counter: int)
    requires Consistent(queue, stack, counter) && stack != []
    ensures Consistent(queue, stack[..|stack| - 1], counter)
  {
    var rest := queue + stack[..|stack| - 1];
    assert queue + stack == rest + [Last(stack)];
    IdBagConcat(rest, [Last(stack)]);
    SubBagIds(queue + stack, rest, counter);
  }

  /** Exchanging the queue front with the stack top keeps the invariant. */
  lemma SwapOneConsistent(queue: seq<Piece>, stack: seq<Piece>, counter: int)
    requires Consistent(queue, stack, counter) && queue != [] && stack != []
    ensures Consistent([Last(stack)] + queue[1..], stack[..|stack| - 1] + [queue[0]], counter)
  {
    var head, top := [queue[0]], [Last(stack)];
    var middle := queue[1..] + stack[..|stack| - 1];
    var after := [Last(stack)] + queue[1..] + (stack[..|stack| - 1] + [queue[0]]);
    assert queue + stack == head + middle + top;
    assert after == top + middle + head;
    IdBagConcat(head + middle, top);
    IdBagConcat(head, middle);
    IdBagConcat(top + middle, head);
    IdBagConcat(top, middle);
    assert IdBag(after) == IdBag(queue + stack);
    SubBagIds(queue + stack, after, counter);
  }

  /** Exchanging the three oldest queue pieces with the whole stack keeps the invariant. */
  lemma SwapBlockConsistent(queue: seq<Piece>, stack: seq<Piece>, counter: int)
    requires Consistent(queue, stack, counter)
    requires |queue| == QUEUE_CAPACITY && |stack| == STACK_CAPACITY
    ensures Consistent(stack + queue[STACK_CAPACITY..], queue[..STACK_CAPACITY], counter)
  {
    var older, newer := queue[..STACK_CAPACITY], queue[STACK_CAPACITY..];
    var after := stack + newer + older;
    assert queue + stack == older + (newer + stack);
    assert after == stack + (newer + older);
    IdBagConcat(older, newer + stack);
    IdBagConcat(newer, stack);
    IdBagConcat(stack, newer + older);
    IdBagConcat(newer, older);
    assert IdBag(after) == IdBag(queue + stack);
    SubBagIds(queue + stack, after, counter);
  }

  /** The block exchange moves pieces between the containers and loses or adds none. */
  lemma SwapBlockPermutes(queue: seq<Piece>, stack: seq<Piece>)
    requires |queue| == QUEUE_CAPACITY && |stack| == STACK_CAPACITY
    ensures multiset(stack + queue[STACK_CAPACITY..]) + multiset(queue[..STACK_CAPACITY])
         == multiset(queue) + multiset(stack)
  {
    assert queue == queue[..STACK_CAPACITY] + queue[STACK_CAPACITY..];
  }

  // ---------------------------------------------------------------------------
  // The actions.
  // ---------------------------------------------------------------------------

  /**
   * Start-up: an empty stack and a queue filled with five fresh pieces.
   * The result satisfies the inventory invariant.
   */
  method StartInventory(g: PieceGenerator) returns (f: CircularQueue, p: BoundedStack)
    modifies g
    ensures fresh(f) && fresh(f.items) && fresh(p) && fresh(p.items)
    ensures f.Valid() && p.Valid() && f.IsFull() && p.IsEmpty()
    ensures f.front == 0 && f.rear == QUEUE_CAPACITY - 1
    ensures f.Contents() == Generated(g.draws, old(g.counter), QUEUE_CAPACITY)
    ensures g.counter == old(g.counter) + QUEUE_CAPACITY
    ensures Consistent(f.Contents(), p.Contents(), g.counter)
  {
    f := new CircularQueue.Init();
    p := new BoundedStack.Init();
    f.FillInitial(g);
    InitialConsistent(g.draws, old(g.counter));
  }

  /**
   * jogarPeca: removes the front piece and appends a newly generated one.
   * On an empty queue it fails and nothing changes.
   */
  method PlayPiece(f: CircularQueue, g: PieceGenerator) returns (ok: bool)
    requires f.Valid()
    modifies f, f.items, g
    ensures f.Valid()
    ensures ok == !old(f.IsEmpty())
    ensures !ok ==> unchanged(f) && unchanged(f.items) && unchanged(g)
    ensures ok ==> g.counter == old(g.counter) + 1 && f.size == old(f.size)
    ensures ok ==> f.Contents() == old(f.Contents())[1..] + [Piece(KindOf(g.draws(old(g.counter))), old(g.counter))]
  {
    var played := f.Dequeue();
    if played.Some? {
      var newPiece := g.Generate();
      var _ := f.Enqueue(newPiece);
      ok := true;
    } else {
      ok := false;
    }
  }

  /**
   * reservarPeca: moves the front piece onto the stack and appends a newly
   * generated piece to the queue. Fails with nothing changed when the stack
   * is full or the queue is empty.
   */
  method ReservePiece(f: CircularQueue, p: BoundedStack, g: PieceGenerator) returns (ok: bool)
    requires f.Valid() && p.Valid()
    modifies f, f.items, p, p.items, g
    ensures f.Valid() && p.Valid()
    ensures ok == (!old(p.IsFull()) && !old(f.IsEmpty()))
    ensures !ok ==> unchanged(f) && unchanged(f.items) && unchanged(p) && unchanged(p.items) && unchanged(g)
    ensures ok ==> g.counter == old(g.counter) + 1 && f.size == old(f.size)
    ensures ok ==> p.Contents() == old(p.Contents()) + [old(f.Front())]
    ensures ok ==> f.Contents() == old(f.Contents())[1..] + [Piece(KindOf(g.draws(old(g.counter))), old(g.counter))]
  {
    ok := false;
    if p.IsFull() {
      return;
    }
    var reserved := f.Dequeue();
    if reserved.Some? {
      var pushed := p.Push(reserved.value);
      if pushed {
        var newPiece := g.Generate();
        var _ := f.Enqueue(newPiece);
        ok := true;
      } else {
        // The "internal error" branch: the stack was checked not to be full,
        // so it is never taken (and the dequeue is never left unreverted).
        assert false;
      }
    }
  }

  /** usarPecaReservada: pops and discards the top of the stack; fails on an empty stack. */
  method UseReserved(p: BoundedStack) returns (ok: bool)
    requires p.Valid()
    modifies p
    ensures p.Valid()
    ensures ok == !old(p.IsEmpty())
    ensures !ok ==> unchanged(p)
    ensures ok ==> p.top == old(p.top) - 1 && p.Contents() == old(p.Contents())[..|old(p.Contents())| - 1]
  {
    var used := p.Pop();
    ok := used.Some?;
  }

  /**
   * trocarPecaAtual: exchanges the piece in the queue's front slot with the
   * piece in the stack's top slot; no index moves. Fails on an empty stack.
   * The front is read without a check, so a non-empty stack needs a
   * non-empty queue.
   */
  method SwapCurrent(f: CircularQueue, p: BoundedStack) returns (ok: bool)
    requires f.Valid() && p.Valid()
    requires !p.IsEmpty() ==> !f.IsEmpty()
    modifies f.items, p.items
    ensures f.Valid() && p.Valid()
    ensures ok == !old(p.IsEmpty())
    ensures !ok ==> unchanged(f.items) && unchanged(p.items)
    ensures ok ==> f.items[..] == old(f.items[..])[f.front := old(p.items[p.top])]
    ensures ok ==> p.items[..] == old(p.items[..])[p.top := old(f.items[f.front])]
    ensures ok ==> f.Contents() == [Last(old(p.Contents()))] + old(f.Contents())[1..]
    ensures ok ==> p.Contents() == old(p.Contents())[..p.top] + [old(f.Contents())[0]]
    ensures multiset(f.Contents()) + multiset(p.Contents()) == old(multiset(f.Contents()) + multiset(p.Contents()))
  {
    if p.IsEmpty() {
      return false;
    }
    var queuePiece := f.Front();
    var stackPiece := p.Top();
    RingViewSetFront(f.items[..], f.front, f.size, stackPiece);
    f.items[f.front] := stackPiece;
    p.items[p.top] := queuePiece;
    ghost var queue, stack := old(f.Contents()), old(p.Contents());
    assert queue == [queue[0]] + queue[1..];
    assert stack == stack[..p.top] + [Last(stack)];
    return true;
  }

  /**
   * trocaMultipla: when the queue and the stack are both full, exchanges
   * queue position i (slot (front + i) % 5) with stack slot i for i = 0..2;
   * the two newest queue pieces and all indices stay as they are.
   * Otherwise fails with nothing changed.
   */
  method SwapBlock(f: CircularQueue, p: BoundedStack) returns (ok: bool)
    requires f.Valid() && p.Valid()
    modifies f.items, p.items
    ensures f.Valid() && p.Valid()
    ensures ok == (old(f.IsFull()) && old(p.IsFull()))
    ensures !ok ==> unchanged(f.items) && unchanged(p.items)
    ensures ok ==> forall i :: 0 <= i < STACK_CAPACITY ==>
      f.items[Slot(f.front, i)] == old(p.items[i]) && p.items[i] == old(f.items[Slot(f.front, i)])
    ensures ok ==> forall i :: STACK_CAPACITY <= i < QUEUE_CAPACITY ==>
      f.items[Slot(f.front, i)] == old(f.items[Slot(f.front, i)])
    ensures ok ==> f.Contents() == old(p.Contents()) + old(f.Contents())[STACK_CAPACITY..]
    ensures ok ==> p.Contents() == old(f.Contents())[..STACK_CAPACITY]
    ensures multiset(f.Contents()) + multiset(p.Contents()) == old(multiset(f.Contents()) + multiset(p.Contents()))
  {
    if !f.IsFull() || !p.IsFull() {
      return false;
    }
    for i := 0 to STACK_CAPACITY
      invariant forall k :: 0 <= k < i ==>
        f.items[Slot(f.front, k)] == old(p.items[k]) && p.items[k] == old(f.items[Slot(f.front, k)])
      invariant forall k :: i <= k < QUEUE_CAPACITY ==> f.items[Slot(f.front, k)] == old(f.items[Slot(f.front, k)])
      invariant forall k :: i <= k < STACK_CAPACITY ==> p.items[k] == old(p.items[k])
    {
      var queueSlot := Slot(f.front, i);
      var stackSlot := i;
      forall k | i < k < QUEUE_CAPACITY
        ensures Slot(f.front, k) != queueSlot
      {
        SlotInjective(f.front, i, k);
      }
      var temp := f.items[queueSlot];
      f.items[queueSlot] := p.items[stackSlot];
      p.items[stackSlot] := temp;
    }
    SwapBlockPermutes(old(f.Contents()), old(p.Contents()));
    return true;
  }

  // ---------------------------------------------------------------------------
  // The menu: one turn per option, on the inventory the game keeps (a full
  // queue and the inventory invariant).
  // ---------------------------------------------------------------------------

  /** The menu's action codes 1 to 5. */
  datatype Action = Play | Reserve | Use | SwapOne | SwapThree

  /** The effect of one option on the two views, and whether it succeeded. */
  datatype Outcome = Outcome(ok: bool, queue: seq<Piece>, stack: seq<Piece>)

  /** The piece the generator hands out next. */
  function NextPiece(draws: nat -> nat, counter: nat): Piece
  {
    Piece(KindOf(draws(counter)), counter)
  }

  /**
   * What option `action` does to a full queue and the stack (both read as
   * views), `next` being the piece the generator would hand out. A failing
   * option leaves both views as they were.
   */
  function Step(action: Action, queue: seq<Piece>, stack: seq<Piece>, next: Piece): (r: Outcome)
    requires |queue| == QUEUE_CAPACITY && |stack| <= STACK_CAPACITY
    ensures |r.queue| == QUEUE_CAPACITY && |r.stack| <= STACK_CAPACITY
    ensures !r.ok ==> r.queue == queue && r.stack == stack
    ensures r.ok <==> (
      || action.Play?
      || (action.Reserve? && |stack| < STACK_CAPACITY)
      || ((action.Use? || action.SwapOne?) && stack != [])
      || (action.SwapThree? && |stack| == STACK_CAPACITY))
  {
    match action
    case Play =>
      Outcome(true, queue[1..] + [next], stack)
    case Reserve =>
      if |stack| == STACK_CAPACITY then Outcome(false, queue, stack)
      else Outcome(true, queue[1..] + [next], stack + [queue[0]])
    case Use =>
      if stack == [] then Outcome(false, queue, stack)
      else Outcome(true, queue, stack[..|stack| - 1])
    case SwapOne =>
      if stack == [] then Outcome(false, queue, stack)
      else Outcome(true, [Last(stack)] + queue[1..], stack[..|stack| - 1] + [queue[0]])
    case SwapThree =>
      if |stack| != STACK_CAPACITY then Outcome(false, queue, stack)
      else Outcome(true, stack + queue[STACK_CAPACITY..], queue[..STACK_CAPACITY])
  }

  /** A play removes the front and adds the next piece; the stack stays as it is. */
  lemma PlayMovesPieces(queue: seq<Piece>, stack: seq<Piece>, next: Piece)
    requires |queue| == QUEUE_CAPACITY && |stack| <= STACK_CAPACITY
    ensures var r := Step(Play, queue, stack, next);
      r.stack == stack && multiset(r.queue) + multiset{queue[0]} == multiset(queue) + multiset{next}
  {
    assert queue == [queue[0]] + queue[1..];
  }

  /** A successful reserve adds the next piece and keeps every piece held before. */
  lemma ReserveMovesPieces(queue: seq<Piece>, stack: seq<Piece>, next: Piece)
    requires |queue| == QUEUE_CAPACITY && |stack| <= STACK_CAPACITY
    ensures var r := Step(Reserve, queue, stack, next);
      r.ok ==> multiset(r.queue) + multiset(r.stack) == multiset(queue) + multiset(stack) + multiset{next}
  {
    assert queue == [queue[0]] + queue[1..];
  }

  /** A successful use removes the top and nothing else. */
  lemma UseMovesPieces(queue: seq<Piece>, stack: seq<Piece>, next: Piece)
    requires |queue| == QUEUE_CAPACITY && |stack| <= STACK_CAPACITY
    ensures var r := Step(Use, queue, stack, next);
      r.ok ==> r.queue == queue && multiset(r.stack) + multiset{Last(stack)} == multiset(stack)
  {
    if stack != [] {
      assert stack == stack[..|stack| - 1] + [Last(stack)];
    }
  }

  /** A successful single swap neither adds nor removes a piece. */
  lemma SwapOneMovesPieces(queue: seq<Piece>, stack: seq<Piece>, next: Piece)
    requires |queue| == QUEUE_CAPACITY && |stack| <= STACK_CAPACITY
    ensures var r := Step(SwapOne, queue, stack, next);
      r.ok ==> multiset(r.queue) + multiset(r.stack) == multiset(queue) + multiset(stack)
  {
    if stack != [] {
      assert queue == [queue[0]] + queue[1..];
      assert stack == stack[..|stack| - 1] + [Last(stack)];
    }
  }

  /** A successful block swap neither adds nor removes a piece. */
  lemma SwapThreeMovesPieces(queue: seq<Piece>, stack: seq<Piece>, next: Piece)
    requires |queue| == QUEUE_CAPACITY && |stack| <= STACK_CAPACITY
    ensures var r := Step(SwapThree, queue, stack, next);
      r.ok ==> multiset(r.queue) + multiset(r.stack) == multiset(queue) + multiset(stack)
  {
    if |stack| == STACK_CAPACITY {
      SwapBlockPermutes(queue, stack);
    }
  }

  /**
   * Every option keeps the inventory invariant, where the counter moves on
   * exactly when a piece was generated.
   */
  lemma StepConsistent(action: Action, queue: seq<Piece>, stack: seq<Piece>, counter: nat, kind: char)
    requires |queue| == QUEUE_CAPACITY && |stack| <= STACK_CAPACITY
    requires Consistent(queue, stack, counter)
    ensures var r := Step(action, queue, stack, Piece(kind, counter));
      Consistent(r.queue, r.stack, counter + if r.ok && (action.Play? || action.Reserve?) then 1 else 0)
  {
    var r := Step(action, queue, stack, Piece(kind, counter));
    if r.ok {
      match action
      case Play => PlayConsistent(queue, stack, counter, kind);
      case Reserve => ReserveConsistent(queue, stack, counter, kind);
      case Use => UseConsistent(queue, stack, counter);
      case SwapOne => SwapOneConsistent(queue, stack, counter);
      case SwapThree => SwapBlockConsistent(queue, stack, counter);
    }
  }

  /**
   * What every turn keeps: both containers well formed, the queue full and
   * the inventory invariant.
   */
  ghost predicate Kept(f: CircularQueue, p: BoundedStack, g: PieceGenerator)
    reads f, f.items, p, p.items, g
  {
    f.Valid() && p.Valid() && f.IsFull() && Consistent(f.Contents(), p.Contents(), g.counter)
  }

  /** Option 1: on a full queue the play always succeeds and the next piece joins the back. */
  method PlayTurn(f: CircularQueue, p: BoundedStack, g: PieceGenerator) returns (ok: bool)
    requires Kept(f, p, g)
    modifies f, f.items, g
    ensures Kept(f, p, g)
    ensures ok && g.counter == old(g.counter) + 1
    ensures f.Contents() == old(f.Contents())[1..] + [NextPiece(g.draws, old(g.counter))]
  {
    ghost var queue, stack, counter := f.Contents(), p.Contents(), g.counter;
    ok := PlayPiece(f, g);
    PlayConsistent(queue, stack, counter, KindOf(g.draws(counter)));
  }

  /** Option 2: succeeds exactly when the stack has room; the front moves onto the stack and the next piece joins the back. */
  method ReserveTurn(f: CircularQueue, p: BoundedStack, g: PieceGenerator) returns (ok: bool)
    requires Kept(f, p, g)
    modifies f, f.items, p, p.items, g
    ensures Kept(f, p, g)
    ensures ok == !old(p.IsFull())
    ensures g.counter == old(g.counter) + (if ok then 1 else 0)
    ensures ok ==> f.Contents() == old(f.Contents())[1..] + [NextPiece(g.draws, old(g.counter))]
    ensures ok ==> p.Contents() == old(p.Contents()) + [old(f.Contents())[0]]
    ensures !ok ==> f.Contents() == old(f.Contents()) && p.Contents() == old(p.Contents())
  {
    ghost var queue, stack, counter := f.Contents(), p.Contents(), g.counter;
    ok := ReservePiece(f, p, g);
    if ok {
      ReserveConsistent(queue, stack, counter, KindOf(g.draws(counter)));
    }
  }

  /** Option 3: succeeds exactly when the stack holds a piece, and then discards the top. */
  method UseTurn(f: CircularQueue, p: BoundedStack, g: PieceGenerator) returns (ok: bool)
    requires Kept(f, p, g)
    modifies p
    ensures Kept(f, p, g)
    ensures ok == !old(p.IsEmpty())
    ensures p.Contents() == if ok then old(p.Contents())[..|old(p.Contents())| - 1] else old(p.Contents())
  {
    ghost var queue, stack, counter := f.Contents(), p.Contents(), g.counter;
    ok := UseReserved(p);
    if ok {
      UseConsistent(queue, stack, counter);
    }
  }

  /** Option 4: succeeds exactly when the stack holds a piece, and then exchanges the front and the top. */
  method SwapOneTurn(f: CircularQueue, p: BoundedStack, g: PieceGenerator) returns (ok: bool)
    requires Kept(f, p, g)
    modifies f.items, p.items
    ensures Kept(f, p, g)
    ensures ok == !old(p.IsEmpty())
    ensures ok ==> f.Contents() == [Last(old(p.Contents()))] + old(f.Contents())[1..]
    ensures ok ==> p.Contents() == old(p.Contents())[..|old(p.Contents())| - 1] + [old(f.Contents())[0]]
    ensures !ok ==> f.Contents() == old(f.Contents()) && p.Contents() == old(p.Contents())
  {
    ghost var queue, stack, counter := f.Contents(), p.Contents(), g.counter;
    ok := SwapCurrent(f, p);
    if ok {
      SwapOneConsistent(queue, stack, counter);
    }
  }

  /** Option 5: succeeds exactly when the stack is full, and then exchanges it with the three oldest queue pieces. */
  method SwapThreeTurn(f: CircularQueue, p: BoundedStack, g: PieceGenerator) returns (ok: bool)
    requires Kept(f, p, g)
    modifies f.items, p.items
    ensures Kept(f, p, g)
    ensures ok == old(p.IsFull())
    ensures ok ==> f.Contents() == old(p.Contents()) + old(f.Contents())[STACK_CAPACITY..]
    ensures ok ==> p.Contents() == old(f.Contents())[..STACK_CAPACITY]
    ensures !ok ==> f.Contents() == old(f.Contents()) && p.Contents() == old(p.Contents())
  {
    ghost var queue, stack, counter := f.Contents(), p.Contents(), g.counter;
    ok := SwapBlock(f, p);
    if ok {
      SwapBlockConsistent(queue, stack, counter);
    }
  }

  /**
   * One turn of the menu loop without its I/O: option `action` runs its own
   * action, with the effect `Step` gives. Every option keeps the queue full
   * and the inventory invariant, and only a successful play or reserve
   * issues an id.
   */
  method Perform(action: Action, f: CircularQueue, p: BoundedStack, g: PieceGenerator) returns (ok: bool)
    requires f.Valid() && p.Valid() && f.IsFull()
    requires Consistent(f.Contents(), p.Contents(), g.counter)
    modifies f, f.items, p, p.items, g
    ensures f.Valid() && p.Valid() && f.IsFull()
    ensures Consistent(f.Contents(), p.Contents(), g.counter)
    ensures g.counter == old(g.counter) + (if ok && (action.Play? || action.Reserve?) then 1 else 0)
    ensures Outcome(ok, f.Contents(), p.Contents())
         == Step(action, old(f.Contents()), old(p.Contents()), NextPiece(g.draws, old(g.counter)))
  {
    match action
    case Play => ok := PlayTurn(f, p, g);
    case Reserve => ok := ReserveTurn(f, p, g);
    case Use => ok := UseTurn(f, p, g);
    case SwapOne => ok := SwapOneTurn(f, p, g);
    case SwapThree => ok := SwapThreeTurn(f, p, g);
  }
}
