# Tetris piece inventory — a Dafny model

This project models the piece inventory of the `tetris.c` game manager. The
inventory has three parts:

- a circular queue (`FilaCircular`) of five upcoming pieces;
- a reserve stack (`Pilha`) of three pieces;
- a piece generator (`gerarPeca`) with its global id counter.

Five player actions move pieces between the queue and the stack: play, reserve,
use a reserved piece, swap one, and swap a block.

The C code changes everything in place through pointers, so the model is
imperative:

- `Queues.CircularQueue` is a class over an `array<Piece>` of five slots. Its
  fields `front`, `rear` and `size` are the C fields `frente`, `tras` and `tamanho`.
- `Stacks.BoundedStack` is a class over an `array<Piece>` of three slots, with `top`
  (-1 when empty).
- `Pieces.PieceGenerator` holds the id counter as a field.

Each container has a ghost view, `Contents()`: the queue front to back, the
stack base to top. A `Valid()` predicate holds the index invariants. The heart
of the queue is `RingView`, the front-to-back reading of the ring: the slots
`(front + i) % 5` for `i < size`.

The actions are free methods over the containers, as in the C code
(`Actions.PlayPiece`, `Actions.ReservePiece`, …), and each one is specified
against the views. The inventory invariant says that ids are unique across
both containers and that every id held was issued before the counter.
`Actions.Consistent` states it. One lemma per action shows that the action's
effect on the views keeps it. `Actions.Perform` runs any action on an
inventory whose queue is full and proves that the queue stays full and the
invariant holds. It dispatches a menu code (`Play`, `Reserve`, `Use`,
`SwapOne`, `SwapThree`) to one turn method per option, which runs the action
and applies that action's lemma. `Actions.Step` is the reference definition of
the menu on the views alone, and `Perform`'s result is proved equal to it.

Files: `pieces.dfy` (module `Pieces`), `queue.dfy` (`Queues`), `stack.dfy`
(`Stacks`), `actions.dfy` (`Actions`).

Modelling choices:

- `rand()` is not modelled. The generator holds a fixed but arbitrary stream
  `draws: nat -> nat`, and the n-th generated piece uses `draws(n)`. The kind is
  `"IOTL"[draw % 4]`, as in `gerarPeca`.
- The container updates `enfileirar` and `empilhar` return 0/1; the model's
  `Enqueue` and `Push` return `ok: bool`. `desenfileirar` and `desempilhar`
  return 0/1 and write the removed piece through an out pointer; the model's
  `Dequeue` and `Pop` return an `Option<Piece>`. The four queries return 0/1
  and become predicates.
- `gerarPeca`, `frenteFila` and `topoPilha` return a piece, and so do
  `Generate`, `Front` and `Top`.
- The five actions and the initialisers are `void` in C. Each action prints a
  success message or a failure message; the model's action returns `ok`, which
  says which of the two the C code prints.
- `frenteFila` and `topoPilha` do not check for emptiness; their comments leave
  that to the caller. `Front()` and `Top()` therefore require a non-empty
  container.
- `trocarPecaAtual` checks only the stack, then reads the queue front. So
  `SwapCurrent` requires a non-empty queue whenever the stack is non-empty.
- In `reservarPeca` the branch where `empilhar` fails after the full-stack check
  is the "internal error" branch. That branch would leave the dequeued piece
  lost, because the dequeue is not reverted. The model keeps the branch and
  proves it unreachable with `assert false`.

## Model

| member | source | states |
|---|---|---|
| `Pieces.KindOf` | tetris.c:62-65 | a random draw always selects one of the kinds 'I', 'O', 'T', 'L' |
| `Pieces.PieceGenerator.constructor` | tetris.c:11 | the id counter starts at 0 |
| `Pieces.PieceGenerator.Generate` | tetris.c:60-69 | the new piece's id is the counter before the call, the counter grows by exactly one, the kind is `"IOTL"[draw % 4]` |
| `Pieces.Generated` | tetris.c:60-69 | the run of pieces that successive `gerarPeca` calls hand out from a given counter, one per call, as the loop at tetris.c:77-80 uses them; it has exactly `n` entries |
| `Pieces.GeneratedIds` | tetris.c:66 | pieces generated in a row carry pairwise-distinct ids, all in `[start, start + n)` |
| `Pieces.GeneratedIncreasing` | tetris.c:66 | successive generated ids are strictly increasing |
| `Pieces.UniqueIdsPairwise` | tetris.c:10-11 | the multiset form of "ids are unique" implies any two positions hold distinct ids |
| `Queues.RingView` | tetris.c:236-242 | the front-to-back view of the ring, the order in which the queue is displayed, has exactly `size` entries; the queue's abstract value `CircularQueue.Contents` is this view |
| `Queues.RingViewPush` | tetris.c:121-123 | writing the slot just past the back and growing the size appends exactly that piece to the front-to-back view |
| `Queues.RingViewPop` | tetris.c:138-140 | advancing `front` modulo 5 and shrinking the size drops exactly the head of the view |
| `Queues.RingViewSetFront` | tetris.c:362 | overwriting the front slot replaces the head of the view and nothing else |
| `Queues.CircularQueue.Init` | tetris.c:41-46 | the queue invariant holds with `front == 0`, `rear == 4`, `size == 0` and an empty view |
| `Queues.CircularQueue.FillInitial` | tetris.c:75-84 | after filling, the invariant holds with `front == 0`, `rear == 4` and `size == 5`; the view is the next five generated pieces in order; the counter advances by 5 |
| `Queues.CircularQueue.IsEmpty` | tetris.c:95-97 | true exactly when the view is empty |
| `Queues.CircularQueue.IsFull` | tetris.c:104-106 | true exactly when the view holds 5 pieces |
| `Queues.CircularQueue.Enqueue` | tetris.c:114-125 | fails exactly on a full queue and then changes nothing; otherwise it writes slot `(rear + 1) % 5`, advances `rear` there, increments `size`, keeps the invariant, and the view becomes `old + [p]` |
| `Queues.CircularQueue.Dequeue` | tetris.c:133-142 | fails exactly on an empty queue and then changes nothing; otherwise it returns the view's head, advances `front` modulo 5, decrements `size`, and the view becomes its tail |
| `Queues.CircularQueue.Front` | tetris.c:149-152 | on a non-empty queue, the front piece is the head of the view |
| `Queues.FifoOrder` | tetris.c:114-142 | on an empty queue, enqueue a, enqueue b, then two dequeues return a then b |
| `Stacks.BoundedStack.Init` | tetris.c:52-54 | `top == -1` and the view is empty |
| `Stacks.BoundedStack.IsEmpty` | tetris.c:163-165 | true exactly when the view is empty |
| `Stacks.BoundedStack.IsFull` | tetris.c:172-174 | true exactly when the view holds 3 pieces |
| `Stacks.BoundedStack.Push` | tetris.c:182-190 | fails with no change exactly when `top == 2`; otherwise `top` grows by one, only slot `top` is written, and the view becomes `old + [p]` |
| `Stacks.BoundedStack.Pop` | tetris.c:198-206 | fails with no change exactly when `top == -1`; otherwise it returns the top piece and the view loses exactly that last element |
| `Stacks.BoundedStack.Top` | tetris.c:213-216 | on a non-empty stack, the top piece is the last element of the base-to-top view |
| `Stacks.BoundedStack.TopToBase` | tetris.c:259-261 | the display view has `top + 1` entries, entry k being slot `top - k` |
| `Stacks.PushPopRestores` | tetris.c:182-206 | a successful push followed by a pop returns the pushed piece and restores `top` and the view |
| `Stacks.LifoOrder` | tetris.c:182-206 | on an empty stack, push a, push b, then two pops return b then a |
| `Actions.StartInventory` | tetris.c:416-423 | start-up gives a full queue of five freshly generated pieces and an empty stack, satisfying the inventory invariant |
| `Actions.InitialConsistent` | tetris.c:419-423 | the start-up views (five generated pieces, empty stack) satisfy the inventory invariant with the advanced counter |
| `Actions.PlayPiece` | tetris.c:293-303 | fails with no change exactly on an empty queue; otherwise the view becomes `tail(old) + [new piece]`, where the new piece's id is the old counter, and the size is unchanged (a full queue stays full) |
| `Actions.PlayConsistent` | tetris.c:293-303 | playing and appending the next generated piece keeps ids unique and issued |
| `Actions.ReservePiece` | tetris.c:310-331 | fails with no change when the stack is full or the queue is empty; otherwise the old front is pushed on the stack, the queue view becomes `tail(old) + [new piece]` and the queue size is restored; the internal-error branch is unreachable |
| `Actions.ReserveConsistent` | tetris.c:310-331 | moving the front to the stack and appending the next generated piece keeps ids unique and issued |
| `Actions.UseReserved` | tetris.c:337-344 | exactly a pop: fails with no change on an empty stack, otherwise drops the top and touches nothing else |
| `Actions.UseConsistent` | tetris.c:337-344 | discarding the top keeps the invariant |
| `Actions.SwapCurrent` | tetris.c:351-369 | fails with no change on an empty stack; otherwise the payloads of slots `front` and `top` are exchanged, no index moves, the views exchange their front and top, and the multiset of pieces is preserved |
| `Actions.SwapOneConsistent` | tetris.c:351-369 | exchanging front and top keeps the invariant |
| `Actions.SwapBlock` | tetris.c:376-406 | fails with no change unless both queue and stack are full; otherwise queue slot `(front + i) % 5` and stack slot i exchange contents for i < 3, queue positions 3 and 4 and all indices are untouched, the queue view becomes `stack + queue[3..]` and the stack view `queue[..3]`, and the multiset of pieces is preserved |
| `Actions.SwapBlockConsistent` | tetris.c:376-406 | the block exchange keeps the invariant |
| `Actions.SwapBlockPermutes` | tetris.c:393-403 | the block exchange's views hold together exactly the pieces held before |
| `Actions.Step` | tetris.c:448-463 | the reference effect of menu option k on a full queue and the stack: option k runs action k; it succeeds exactly when play (always), reserve (stack not full), use or single swap (stack not empty) or block swap (stack full) can proceed; a failure leaves both views as they were; the queue stays full and the stack within 3 |
| `Actions.PlayMovesPieces` | tetris.c:293-303 | a play leaves the stack alone, and the queue loses its front and gains the next piece |
| `Actions.ReserveMovesPieces` | tetris.c:310-331 | a successful reserve keeps every piece held and adds the next piece |
| `Actions.UseMovesPieces` | tetris.c:337-344 | a successful use leaves the queue alone and removes exactly the top piece |
| `Actions.SwapOneMovesPieces` | tetris.c:351-369 | a successful single swap neither adds nor removes a piece |
| `Actions.SwapThreeMovesPieces` | tetris.c:376-406 | a successful block swap neither adds nor removes a piece |
| `Actions.StepConsistent` | tetris.c:448-463 | every option keeps ids unique and issued, with the counter advanced exactly when a play or reserve succeeds |
| `Actions.PlayTurn` | tetris.c:449-451 | option 1 on a full queue with the invariant always succeeds: the queue view becomes `tail(old) + [next piece]`, the counter grows by one, the queue stays full and the invariant holds |
| `Actions.ReserveTurn` | tetris.c:452-454 | option 2 succeeds exactly when the stack is not full; then the old front is pushed, the queue view becomes `tail(old) + [next piece]` and the counter grows by one; otherwise both views and the counter are unchanged; the invariant holds |
| `Actions.UseTurn` | tetris.c:455-457 | option 3 succeeds exactly when the stack is not empty and then drops its top; otherwise the stack is unchanged; only the stack can change, and the invariant holds |
| `Actions.SwapOneTurn` | tetris.c:458-460 | option 4 succeeds exactly when the stack is not empty and then exchanges the queue front and the stack top in the views; otherwise both views are unchanged; the invariant holds |
| `Actions.SwapThreeTurn` | tetris.c:461-463 | option 5 succeeds exactly when the stack is full and then the queue view becomes `stack + queue[3..]` and the stack view `queue[..3]`; otherwise both views are unchanged; the invariant holds |
| `Actions.Perform` | tetris.c:448-463 | the outcome and the new views are exactly `Step` of the chosen option on the old views and the next piece; the queue stays full, ids stay unique and issued, and the counter grows by one exactly after a successful play or reserve |

## Left out

- The menu loop of `main` (tetris.c:412-475) is not modelled: `scanf`, clearing the input buffer, the invalid-option message and the quit option. `Actions.Perform` models only the dispatch of codes 1-5.
- `exibirEstadoAtual` and `exibirMenu` only print. The queue's front-to-back view is `CircularQueue.Contents`, and the stack's top-to-base view is `BoundedStack.TopToBase`.
- Every `printf` inside the actions is left out. Only the success or failure outcome is returned.
- `rand()`, `srand(time(NULL))` and `time` are library calls. They become the generator's arbitrary `draws` stream. The model does not claim that the draws are uniform.
- Pieces.PieceGenerator.Generate: the counter is an unbounded `nat`, so the model does not capture the overflow of the C `int` after `INT_MAX` pieces.
- The C arrays start uninitialised. The Dafny arrays start with default pieces. No operation reads a slot it has not written, except `frenteFila` and `topoPilha` on an empty container, which the preconditions exclude.
