/** Pieces of the game and the fixed capacities of the two containers. */
module Pecas {

  /** Capacity of the circular queue of upcoming pieces (TAM_FILA). */
  const TamFila: nat := 5

  /** Capacity of the reserve stack (TAM_PILHA). */
  const TamPilha: nat := 3

  /** A piece: its kind and its identifier. */
  datatype Peca = Peca(tipo: char, id: int)

  /** The value that a removal from an empty container returns: kind ' ' and id -1. */
  const Vazia: Peca := Peca(' ', -1)

  /** The four kinds a generated piece can have. */
  const Tipos: seq<char> := ['I', 'O', 'T', 'L']

  /**
   * gerarPeca, with the random draw made a parameter: `sorteio` stands for the
   * value rand() returned, which is never negative.
   */
  function GerarPeca(id: int, sorteio: nat): (p: Peca)
    ensures p.id == id && p.tipo in Tipos
    ensures p != Vazia
  {
    Peca(Tipos[sorteio % 4], id)
  }

  /** The pieces the controller generates from consecutive ids, one draw each. */
  function Geradas(id: int, sorteios: seq<nat>): (ps: seq<Peca>)
    ensures |ps| == |sorteios|
    ensures forall i :: 0 <= i < |ps| ==> ps[i].id == id + i && ps[i].tipo in Tipos
  {
    seq(|sorteios|, i requires 0 <= i < |sorteios| => GerarPeca(id + i, sorteios[i]))
  }

  /**
   * Every piece held carries a real id. The ids come from a counter that starts
   * at 0, so this is what lets a caller read `id != -1` as "a piece was returned".
   */
  predicate IdsValidos(s: seq<Peca>)
  {
    forall i :: 0 <= i < |s| ==> s[i].id >= 0
  }
}
