/** Pieces, the piece generator and the bookkeeping of piece ids. */
module Pieces {

  /** The piece kinds, in the order in which a random draw indexes them. */
  const KINDS: string := "IOTL"

  /** A piece: its kind ('I', 'O', 'T' or 'L') and its unique id. */
  datatype Piece = Piece(kind: char, id: int)

  datatype Option<T> = None | Some(value: T)

  /** The kind picked by one random draw: the draw modulo the number of kinds. */
  function KindOf(draw: nat): (k: char)
    ensures k in KINDS
  {
    KINDS[draw % |KINDS|]
  }

  /** The `n` pieces a generator whose counter stands at `start` hands out next. */
  function Generated(draws: nat -> nat, start: nat, n: nat): (r: seq<Piece>)
    ensures |r| == n
  {
    seq(n, i requires 0 <= i < n => Piece(KindOf(draws(start + i)), start + i))
  }

  /**
   * The piece generator. The process-wide id counter is its field; the
   * random numbers it draws are the fixed but arbitrary stream `draws`,
   * whose n-th value is used by the n-th piece generated.
   */
  class PieceGenerator {
    const draws: nat -> nat
    var counter: nat

    constructor (draws: nat -> nat)
      ensures this.draws == draws && counter == 0
    {
      this.draws := draws;
      counter := 0;
    }

    /** A fresh piece: its id is the counter before the call, which then advances by one. */
    method Generate() returns (p: Piece)
      modifies this
      ensures p.id == old(counter) && counter == old(counter) + 1
      ensures p.kind == KindOf(draws(old(counter))) && p.kind in KINDS
      ensures p == Generated(draws, old(counter), 1)[0]
    {
      p := Piece(KindOf(draws(counter)), counter);
      counter := counter + 1;
    }
  }

  /** The multiset of the ids of the pieces in `s`. */
  ghost function IdBag(s: seq<Piece>): multiset<int>
  {
    if s == [] then multiset{} else multiset{s[0].id} + IdBag(s[1..])
  }

  /** No id occurs twice among the pieces in `s`. */
  ghost predicate UniqueIds(s: seq<Piece>)
  {
    forall id :: IdBag(s)[id] <= 1
  }

  /** Every piece in `s` has an id below `bound`, i.e. was handed out before the counter reached it. */
  ghost predicate IdsBelow(s: seq<Piece>, bound: int)
  {
    forall id :: id in IdBag(s) ==> id < bound
  }

  lemma {:induction false} IdBagConcat(a: seq<Piece>, b: seq<Piece>)
    ensures IdBag(a + b) == IdBag(a) + IdBag(b)
  {
    if a == [] {
      assert a + b == b;
    } else {
      assert (a + b)[1..] == a[1..] + b;
      IdBagConcat(a[1..], b);
    }
  }

  lemma {:induction false} IdBagHas(s: seq<Piece>, i: nat)
    requires i < |s|
    ensures s[i].id in IdBag(s)
  {
    if i > 0 {
      IdBagHas(s[1..], i - 1);
    }
  }

  /** A sequence with unique ids carries pairwise distinct ids. */
  lemma UniqueIdsPairwise(s: seq<Piece>, i: nat, j: nat)
    requires UniqueIds(s) && i < j < |s|
    ensures s[i].id != s[j].id
  {
    assert s == s[..j] + s[j..];
    IdBagConcat(s[..j], s[j..]);
    IdBagHas(s[..j], i);
    IdBagHas(s[j..], 0);
    var x := s[i].id;
    assert IdBag(s)[x] == IdBag(s[..j])[x] + IdBag(s[j..])[x];
    assert IdBag(s[..j])[x] >= 1;
  }

  /** Keeping only some of the pieces keeps the ids unique and issued. */
  lemma SubBagIds(big: seq<Piece>, small: seq<Piece>, bound: int)
    requires IdBag(small) <= IdBag(big) && UniqueIds(big) && IdsBelow(big, bound)
    ensures UniqueIds(small) && IdsBelow(small, bound)
  {
    forall id
      ensures IdBag(small)[id] <= IdBag(big)[id]
    {
    }
  }

  /** Adding the piece the generator issues next keeps the ids unique and issued. */
  lemma AddIssuedId(before: seq<Piece>, after: seq<Piece>, bound: int)
    requires UniqueIds(before) && IdsBelow(before, bound)
    requires IdBag(after) == IdBag(before) + multiset{bound}
    ensures UniqueIds(after) && IdsBelow(after, bound + 1)
  {
    assert bound !in IdBag(before);
  }

  /** The pieces generated in a row have distinct ids, all in [start, start + n). */
  lemma {:induction false} GeneratedIds(draws: nat -> nat, start: nat, n: nat)
    ensures UniqueIds(Generated(draws, start, n))
    ensures forall id :: id in IdBag(Generated(draws, start, n)) ==> start <= id < start + n
  {
    if n > 0 {
      GeneratedIds(draws, start, n - 1);
      var front := Generated(draws, start, n - 1);
      var last := Piece(KindOf(draws(start + n - 1)), start + n - 1);
      assert Generated(draws, start, n) == front + [last];
      IdBagConcat(front, [last]);
      assert IdBag([last]) == multiset{start + n - 1};
    }
  }

  /** Successive pieces of a generator have strictly increasing ids. */
  lemma GeneratedIncreasing(draws: nat -> nat, start: nat, n: nat, i: nat, j: nat)
    requires i < j < n
    ensures Generated(draws, start, n)[i].id < Generated(draws, start, n)[j].id
  {
  }
}
