/** The bounded reserve stack (Pilha). */
module Stacks {
  import opened Pieces

  const STACK_CAPACITY := 3

  /** The top of a non-empty sequence read base to top. */
  function Last(s: seq<Piece>): Piece
    requires s != []
  {
    s[|s| - 1]
  }

  /** The top-to-base view used for display. */
  function Reversed(s: seq<Piece>): (r: seq<Piece>)
    ensures |r| == |s|
  {
    if s == [] then [] else Reversed(s[1..]) + [s[0]]
  }

  /** The display view starts at the top and ends at the base. */
  lemma {:induction false} ReversedAt(s: seq<Piece>, k: nat)
    requires k < |s|
    ensures Reversed(s)[k] == s[|s| - 1 - k]
  {
    if k < |s| - 1 {
      ReversedAt(s[1..], k);
    }
  }

  lemma ReversedAll(s: seq<Piece>)
    ensures forall k :: 0 <= k < |s| ==> Reversed(s)[k] == s[|s| - 1 - k]
  {
    forall k | 0 <= k < |s|
      ensures Reversed(s)[k] == s[|s| - 1 - k]
    {
      ReversedAt(s, k);
    }
  }

  class BoundedStack {
    const items: array<Piece>
    /** Index of the top slot, -1 when the stack is empty. */
    var top: int

    ghost predicate Valid()
      reads this
    {
      items.Length == STACK_CAPACITY && -1 <= top < STACK_CAPACITY
    }

    /** The stack from base (index 0) to top. */
    ghost function Contents(): seq<Piece>
      reads this, items
      requires Valid()
    {
      items[..top + 1]
    }

    /** inicializarPilha: an empty stack. */
    constructor Init()
      ensures Valid() && fresh(items)
      ensures top == -1 && Contents() == []
    {
      items := new Piece[STACK_CAPACITY];
      top := -1;
    }

    /** pilhaVazia */
    predicate IsEmpty()
      reads this, items
      requires Valid()
      ensures IsEmpty() <==> Contents() == []
    {
      top == -1
    }

    /** pilhaCheia */
    predicate IsFull()
      reads this, items
      requires Valid()
      ensures IsFull() <==> |Contents()| == STACK_CAPACITY
    {
      top == STACK_CAPACITY - 1
    }

    /** empilhar: puts `p` on top unless the stack is full. */
    method Push(p: Piece) returns (ok: bool)
      requires Valid()
      modifies this, items
      ensures Valid()
      ensures ok == (old(top) != STACK_CAPACITY - 1)
      ensures !ok ==> unchanged(this) && unchanged(items)
      ensures ok ==> top == old(top) + 1 && items[..] == old(items[..])[top := p]
      ensures Contents() == if ok then old(Contents()) + [p] else old(Contents())
    {
      if IsFull() {
        return false;
      }
      top := top + 1;
      items[top] := p;
      return true;
    }

    /** desempilhar: removes and returns the top piece unless the stack is empty. */
    method Pop() returns (r: Option<Piece>)
      requires Valid()
      modifies this
      ensures Valid()
      ensures r.Some? == (old(top) != -1)
      ensures r.None? ==> unchanged(this)
      ensures r.Some? ==> top == old(top) - 1 && old(Contents()) == Contents() + [r.value]
    {
      if IsEmpty() {
        return None;
      }
      r := Some(items[top]);
      top := top - 1;
    }

    /** topoPilha: the top piece; the caller must know the stack is not empty. */
    function Top(): (p: Piece)
      reads this, items
      requires Valid() && !IsEmpty()
      ensures p == Last(Contents())
    {
      items[top]
    }

    /** The stack as displayed, from top to base. */
    ghost function TopToBase(): (r: seq<Piece>)
      reads this, items
      requires Valid()
      ensures |r| == top + 1
      ensures forall k :: 0 <= k < |r| ==> r[k] == items[top - k]
    {
      ReversedAll(Contents());
      Reversed(Contents())
    }
  }

  /** LIFO order: a successful push followed by a pop returns the pushed piece and restores the stack. */
  method PushPopRestores(s: BoundedStack, x: Piece) returns (popped: Option<Piece>)
    requires s.Valid() && !s.IsFull()
    modifies s, s.items
    ensures s.Valid() && popped == Some(x)
    ensures s.top == old(s.top) && s.Contents() == old(s.Contents())
  {
    var _ := s.Push(x);
    popped := s.Pop();
  }

  /** LIFO order: on an empty stack, pushing a then b makes b come out first, then a. */
  method LifoOrder(s: BoundedStack, a: Piece, b: Piece) returns (first: Option<Piece>, second: Option<Piece>)
    requires s.Valid() && s.IsEmpty()
    modifies s, s.items
    ensures s.Valid() && first == Some(b) && second == Some(a) && s.Contents() == []
  {
    var _ := s.Push(a);
    var _ := s.Push(b);
    first := s.Pop();
    second := s.Pop();
  }
}
