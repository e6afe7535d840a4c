# Tetris piece queue and reserve stack, in Dafny

This project models the in-memory core of a small Tetris-style piece manager
written in C three times with growing scope (`novato.c`, `aventureiro.c`,
`mestre.c`). Its parts are:

- a circular queue of upcoming pieces (`Fila`, capacity 5). Its fields are
  `frente` (the head slot), `tras` (the last slot, -1 before the first insertion)
  and `qtd` (the count, kept apart so that full and empty differ);
- a reserve stack (`Pilha`, capacity 3). Its `topo` starts at -1;
- the two exchanges of `mestre.c`. `trocarTopo` swaps the queue head with the
  stack top. `trocarMultiplas` swaps queue positions 0..2 with stack slots
  `topo`, `topo-1` and `topo-2`;
- the steps that `main` runs for each menu option, and the prefill of the queue.

The queue code is shared by all three files, and the stack code by
`aventureiro.c` and `mestre.c` (`novato.c` has no stack). The copies make the
same state changes and differ only in the warnings they print, so each is
modelled once; the rows below cite whichever file states the property at hand.

Layout, one module per file:

- `pecas.dfy` (`Pecas`): the piece `Peca(tipo, id)`, the sentinel `Vazia` =
  `Peca(' ', -1)`, the capacities, and `gerarPeca`.
- `fila.dfy` (`FilaCircular`): the class `Fila` over an `array`. `Conteudo()`
  is its ghost view as a sequence: slot `(frente + i) % 5` for `i < qtd`. The
  file also holds the abstract queue operations (`Enfileirada`,
  `Desenfileirada`), the ring-index lemmas and the FIFO lemmas.
- `pilha.dfy` (`PilhaReserva`): the class `Pilha`. Its `Conteudo()` is
  `itens[..topo + 1]`. The file also holds the abstract stack operations and
  the LIFO lemmas.
- `trocas.dfy` (`Trocas`): the exchanges on the raw slots (`Trocadas`), their
  loop form (`TrocasEmSequencia`) and their meaning on the two sequences
  (`TrocaPontas`), plus the methods `TrocarTopo` and `TrocarMultiplas`.
- `controle.dfy` (`Controle`): the per-option steps of `main` and three client
  sessions.

Modelling choices:

- C's `%` is only ever applied to non-negative operands here (`tras + 1`,
  `frente + 1`, `frente + i`, `rand()`). So Dafny's Euclidean `%` gives the
  same results.
- `gerarPeca(id)` becomes `GerarPeca(id, sorteio)`. `sorteio` is the value
  that `rand()` returned.
- The counter `idGlobal` is threaded through each step as a `nat`. A step
  takes the counter's value and returns its value after the step.
- The queue and stack functions return nothing or the sentinel. The model
  does the same: a full container refuses the piece, and an empty one returns
  `Vazia`. No error values are modelled, because the code has none. All
  printing, on success or on failure, is left out.
- A reservation does not shrink the queue. `main` refills it in the same step,
  so `qtd` ends unchanged. This follows the code rather than a plain "move one
  piece from the queue to the stack" reading of the operation.

## Model

| member | source | states |
|---|---|---|
| `Pecas.GerarPeca` | mestre.c:49-55 | a generated piece carries the given id and one of the kinds I, O, T, L, so it is never the sentinel |
| `FilaCircular.SlotsDistintos` | novato.c:79-82 | two different queue positions below 5 never map to the same slot `(frente + i) % 5` |
| `FilaCircular.JanelaEnfileirar` | novato.c:53-55 | writing `p` at slot `(frente + qtd) % 5` and counting it makes the queue's sequence the old sequence plus `[p]` |
| `FilaCircular.JanelaDesenfileirar` | novato.c:65-68 | the head of the sequence is `itens[frente]`; moving `frente` on modulo 5 and taking one off `qtd` drops exactly that head |
| `FilaCircular.CaudaPreservada` | mestre.c:62-72 | the tail invariant `(tras + 1) % 5 == (frente + qtd) % 5` is kept by the enqueue update and by the dequeue update |
| `FilaCircular.SentinelaSoDaFilaVazia` | mestre.c:190-191 | when every queued id is non-negative, the callers' test `id != -1` on the dequeued piece holds exactly when the queue was non-empty |
| `FilaCircular.EnfileirarTodasGuardaAsPrimeiras` | mestre.c:172-173 | repeated enqueues keep exactly the pieces that fit, in arrival order: the result is `(s + ps)` cut to at most 5 |
| `FilaCircular.EnfileirarTodasGuardaIds` | mestre.c:171-173 | repeated enqueues of pieces with non-negative ids into a queue holding only non-negative ids leave only non-negative ids |
| `FilaCircular.EnfileirarTodasNaFilaVazia` | novato.c:93-96 | five enqueues into an empty queue give a full queue holding those five pieces in order |
| `FilaCircular.FifoEmQualquerOrdem` | mestre.c:60-74 | for any run of enqueue and dequeue calls, the queue never exceeds 5, and the removed pieces followed by the rest equal the initial pieces followed by the accepted ones |
| `FilaCircular.FifoDesdeVazia` | novato.c:48-68 | starting from an empty queue, the i-th successful dequeue returns the i-th accepted piece |
| `FilaCircular.Fila.constructor` | mestre.c:163-168 | a declared queue after `inicializarFila` is valid and empty, with `frente == 0` and `tras == -1` |
| `FilaCircular.Fila.InicializarFila` | novato.c:22-26 | re-initialising gives an empty valid queue with `frente == 0`, `tras == -1`, `qtd == 0`, on the same array |
| `FilaCircular.Fila.FilaVazia` | mestre.c:41 | true exactly when the queue's sequence is empty |
| `FilaCircular.Fila.FilaCheia` | mestre.c:42 | true exactly when the queue holds 5 pieces |
| `FilaCircular.Fila.Enfileirar` | mestre.c:60-65 | keeps the invariant; a full queue is left entirely unchanged; otherwise `p` is written at slot `(tras + 1) % 5`, which becomes `tras`, `qtd` grows by one, the sequence gains `p` at its end and no other slot changes |
| `FilaCircular.Fila.Desenfileirar` | mestre.c:67-74 | keeps the invariant; an empty queue returns `{' ', -1}` and is unchanged; otherwise it returns `itens[frente]`, the first element of the sequence, advances `frente` modulo 5, decrements `qtd`, and the sequence loses its head |
| `PilhaReserva.EmpilharDesempilhar` | mestre.c:79-91 | on a non-full stack, a pop right after a push returns the pushed piece and restores the stack |
| `PilhaReserva.SentinelaSoDaPilhaVazia` | mestre.c:212-213 | when every stacked id is non-negative, `id != -1` on the popped piece holds exactly when the stack was non-empty |
| `PilhaReserva.EmpilharTodasCabem` | aventureiro.c:89-96 | pushes that fit add their pieces on top in push order |
| `PilhaReserva.Lifo` | aventureiro.c:99-108 | popping as many pieces as were pushed returns them newest first and leaves the stack as it was before the pushes |
| `PilhaReserva.Pilha.constructor` | mestre.c:164-169 | a declared stack after `inicializarPilha` is valid and empty, with `topo == -1` |
| `PilhaReserva.Pilha.InicializarPilha` | aventureiro.c:74-76 | re-initialising gives an empty valid stack with `topo == -1`, on the same array |
| `PilhaReserva.Pilha.PilhaVazia` | mestre.c:43 | true exactly when the stack's sequence is empty |
| `PilhaReserva.Pilha.PilhaCheia` | mestre.c:44 | true exactly when the stack holds 3 pieces |
| `PilhaReserva.Pilha.Empilhar` | mestre.c:79-83 | keeps `-1 <= topo <= 2`; a full stack is unchanged; otherwise `topo` grows by one, the new top slot holds the piece, no other slot changes, and the sequence gains the piece at its end |
| `PilhaReserva.Pilha.Desempilhar` | mestre.c:85-91 | an empty stack returns `{' ', -1}` and is unchanged; otherwise it returns `itens[topo]`, the last element of the sequence, and decrements `topo` |
| `Trocas.PosicaoDoSlot` | mestre.c:148 | the slot `(frente + i) % 5` holds queue position `i`, and every slot is the slot of its own position |
| `Trocas.MaisUmPar` | mestre.c:147-154 | swapping pair `n-1` after the first `n-1` pairs gives the all-at-once exchange of `n` pairs, because the new pair's queue slot and stack slot are not touched by the earlier pairs |
| `Trocas.SequenciaIgualSimultanea` | mestre.c:147-154 | the loop's three swaps, one after the other, equal the simultaneous pairwise exchange of queue slot `(frente+i)%5` with stack slot `topo-i` |
| `Trocas.TrocaInvolucao` | mestre.c:126-154 | exchanging the same pairs twice restores every slot of both arrays |
| `Trocas.TrocaPontas` | mestre.c:141-154 | on the sequences, the first `n` queue pieces become the `n` top stack pieces, top first, and the reverse; both sizes and all other pieces are unchanged |
| `Trocas.TrocaPontasGuardaIds` | mestre.c:147-154 | the exchange only moves pieces between the containers, so if both held only non-negative ids, both still do |
| `Trocas.TrocadaNaPosicao` | mestre.c:148-150 | after the exchange of `n` pairs, queue slot `(frente + i) % 5` holds stack slot `topo - i` when `i < n`, and its own piece otherwise |
| `Trocas.TrocadaNoSlot` | mestre.c:149-153 | after the exchange of `n` pairs, stack slot `j` holds queue slot `(frente + (topo - j)) % 5` when `j` is one of the `n` slots from `topo` down, and its own piece otherwise |
| `Trocas.TrocadaNaFilaEm` | mestre.c:147-152 | queue position `i` after the slot-level exchange is position `i` of `TrocaPontas` on the queue's sequence |
| `Trocas.TrocadasNaFila` | mestre.c:147-152 | seen as a queue, the slot-level exchange is `TrocaPontas` on the queue's sequence |
| `Trocas.TrocadasNaPilha` | mestre.c:149-153 | seen as a stack, the slot-level exchange is `TrocaPontas` on the stack's sequence, and slots above `topo` keep their pieces |
| `Trocas.TrocadasNasDuasVistas` | mestre.c:147-154 | the slot-level exchange is `TrocaPontas` on both sequences at once, and non-negative ids stay non-negative on both sides |
| `Trocas.TrocaMultiplaExemplo` | mestre.c:141-157 | queue `[q0..q4]` and stack `[s0,s1,s2]` become `[s2,s1,s0,q3,q4]` and `[q2,q1,q0]` |
| `Trocas.TrocarTopo` | mestre.c:126-138 | if either container is empty, nothing changes; otherwise the queue's head slot and the stack's top slot swap pieces, the sequences change as in `TrocaPontas` with one pair, and `frente`, `tras`, `qtd` and `topo` are never written; non-negative ids stay non-negative in both containers |
| `Trocas.TrocarMultiplas` | mestre.c:141-157 | if `qtd < 3` or `topo < 2`, nothing changes; otherwise the three-turn loop ends in the simultaneous exchange of three pairs, the sequences change as in `TrocaPontas` with three pairs, and sizes and all other slots are unchanged; non-negative ids stay non-negative in both containers |
| `Controle.Preencher` | mestre.c:171-173 | the prefill enqueues the 5 generated pieces with ids `idGlobal` to `idGlobal + 4`, and the counter advances by 5; non-negative ids in the queue stay non-negative |
| `Controle.PreenchimentoInicial` | aventureiro.c:159-162 | after the prefill from empty, the queue is full and position `i` holds the piece with id `idGlobal + i` |
| `Controle.Jogar` | aventureiro.c:176-182 | play returns the dequeued head or the sentinel, then enqueues a new piece; from a full queue it removes the head and leaves `qtd == 5`; non-negative ids in the queue stay non-negative |
| `Controle.Reservar` | mestre.c:197-209 | if the stack is full or the queue is empty, nothing changes. Otherwise the old head becomes the new stack top, `topo` grows by one, the refill keeps `qtd`, and the counter advances by one. A queued piece with id -1 would be dropped. Non-negative ids are kept |
| `Controle.Usar` | mestre.c:211-216 | the use step pops the stack, and with real ids its `id != -1` test holds exactly when the stack was non-empty |
| `Controle.Inserir` | novato.c:114-118 | the insert option generates a piece from the counter, always advances the counter, and enqueues the piece unless the queue is full; non-negative ids in the queue stay non-negative |
| `Controle.SessaoNovato` | novato.c:93-116 | after the prefill from empty the queue is full; a play returns the piece with id 0; the next insertion makes the queue full again |
| `Controle.SessaoReserva` | aventureiro.c:184-202 | after the prefill, a reservation keeps the queue full and advances the counter to 6; using the reserve then returns the piece with id 0 |
| `Controle.SessaoPilha` | aventureiro.c:88-108 | three pushes fill the stack and a fourth is refused; three pops return the pieces newest first; a fourth pop returns the sentinel |

## Left out

- The menu loop of `main`, `scanf` and the `switch` dispatch are not modelled.
  Each option is a method of `Controle`. Option 1 of `novato.c` (play without
  a refill) is `Fila.Desenfileirar` itself.
- `exibirEstado` and `exibirFila` only print and are not modelled. Their index
  formula `(frente + i) % 5` is the queue's abstraction `Janela`.
- Every `printf` is left out, warnings included: they are output only. So is
  the exit option.
- `rand()` and `srand(time(NULL))` are randomness. The draw is a parameter of
  `GerarPeca`.
- `idGlobal` is a C `int`. The model uses an unbounded `nat` and does not
  model overflow after 2^31 pieces.
- `Controle.Reservar`: its guarantee `IdsValidos` is stated only when the ids
  held at the start are already non-negative. The same holds for
  `Controle.Preencher`, `Controle.Jogar`, `Controle.Inserir`,
  `Trocas.TrocarTopo` and `Trocas.TrocarMultiplas`: each keeps the ids
  non-negative when they start so. Together these steps keep the ids
  non-negative from the empty start onwards. In the C program that always
  holds, because every id comes from `idGlobal`, which starts at 0.
- `Controle.Usar`: its `id != -1` guarantee is stated only when the stacked
  ids are non-negative, for the same reason.
- The controller's pieces are `Peca` values copied between arrays. The two
  arrays never alias: their lengths differ.
