/**
 * The circular queue of upcoming pieces (Fila): a ring of TamFila slots with
 * the index of the head (frente), the index of the last piece (tras, -1 before
 * the first insertion) and an explicit count (qtd) that tells full from empty.
 */
module FilaCircular {
  import opened Pecas

  // ---------------------------------------------------------------------------
  // Ring arithmetic and the abstraction of the slots as a sequence
  // ---------------------------------------------------------------------------

  /** The pieces of the queue in FIFO order: position i lives in slot (frente + i) % TamFila. */
  ghost function Janela(itens: seq<Peca>, frente: int, qtd: int): (r: seq<Peca>)
    requires |itens| == TamFila && 0 <= frente < TamFila && 0 <= qtd <= TamFila
    ensures |r| == qtd
  {
    seq(qtd, i requires 0 <= i < qtd => itens[(frente + i) % TamFila])
  }

  /** Distinct positions of the queue never share a slot. */
  lemma SlotsDistintos(frente: int, i: int, j: int)
    requires 0 <= frente < TamFila && 0 <= i < j < TamFila
    ensures (frente + i) % TamFila != (frente + j) % TamFila
  {
  }

  /** Writing the piece at slot (frente + qtd) % TamFila and counting it appends it to the queue. */
  lemma JanelaEnfileirar(itens: seq<Peca>, frente: int, qtd: int, p: Peca)
    requires |itens| == TamFila && 0 <= frente < TamFila && 0 <= qtd < TamFila
    ensures Janela(itens[(frente + qtd) % TamFila := p], frente, qtd + 1) == Janela(itens, frente, qtd) + [p]
  {
    var novos := itens[(frente + qtd) % TamFila := p];
    forall i | 0 <= i < qtd
      ensures Janela(novos, frente, qtd + 1)[i] == Janela(itens, frente, qtd)[i]
    {
      SlotsDistintos(frente, i, qtd);
    }
  }

  /** Advancing frente modulo TamFila and uncounting one piece drops the head of the queue, which is itens[frente]. */
  lemma JanelaDesenfileirar(itens: seq<Peca>, frente: int, qtd: int)
    requires |itens| == TamFila && 0 <= frente < TamFila && 0 < qtd <= TamFila
    ensures Janela(itens, frente, qtd)[0] == itens[frente]
    ensures Janela(itens, (frente + 1) % TamFila, qtd - 1) == Janela(itens, frente, qtd)[1..]
  {
    var proxima := (frente + 1) % TamFila;
    forall i | 0 <= i < qtd - 1
      ensures Janela(itens, proxima, qtd - 1)[i] == Janela(itens, frente, qtd)[1..][i]
    {
      assert (proxima + i) % TamFila == (frente + (i + 1)) % TamFila;
    }
  }

  /**
   * The tail index tras trails the slot frente + qtd by one (the start value -1
   * included), so the slot enfileirar writes is the one just past the queue.
   */
  ghost predicate CaudaCoerente(frente: int, tras: int, qtd: int)
  {
    (tras + 1) % TamFila == (frente + qtd) % TamFila
  }

  /** Both updates of the source keep tras coherent with frente and qtd. */
  lemma CaudaPreservada(frente: int, tras: int, qtd: int)
    requires 0 <= frente < TamFila && -1 <= tras < TamFila && 0 <= qtd <= TamFila
    requires CaudaCoerente(frente, tras, qtd)
    ensures qtd < TamFila ==> CaudaCoerente(frente, (tras + 1) % TamFila, qtd + 1)
    ensures 0 < qtd ==> CaudaCoerente((frente + 1) % TamFila, tras, qtd - 1)
  {
  }

  // ---------------------------------------------------------------------------
  // The queue as a sequence: what enfileirar and desenfileirar do to it
  // ---------------------------------------------------------------------------

  /** enfileirar on the abstract queue: a full queue refuses the piece and stays as it was. */
  function Enfileirada(s: seq<Peca>, p: Peca): (r: seq<Peca>)
    requires |s| <= TamFila
    ensures |r| <= TamFila
  {
    if |s| == TamFila then s else s + [p]
  }

  /** desenfileirar on the abstract queue: the head and the rest, or the sentinel and no change. */
  function Desenfileirada(s: seq<Peca>): (r: (Peca, seq<Peca>))
  {
    if |s| == 0 then (Vazia, s) else (s[0], s[1..])
  }

  /**
   * With real ids held, the callers' test `id != -1` on what desenfileirar
   * returned is exactly "the queue was not empty".
   */
  lemma SentinelaSoDaFilaVazia(s: seq<Peca>)
    requires IdsValidos(s)
    ensures Desenfileirada(s).0.id != -1 <==> s != []
  {
  }

  /** Several enfileirar calls in a row, oldest piece first. */
  function EnfileirarTodas(s: seq<Peca>, ps: seq<Peca>): (r: seq<Peca>)
    requires |s| <= TamFila
    ensures |r| <= TamFila
    decreases |ps|
  {
    if ps == [] then s else Enfileirada(EnfileirarTodas(s, ps[..|ps| - 1]), ps[|ps| - 1])
  }

  /** Enqueueing several pieces keeps exactly those that fit, in their order. */
  lemma {:induction false} EnfileirarTodasGuardaAsPrimeiras(s: seq<Peca>, ps: seq<Peca>)
    requires |s| <= TamFila
    ensures var n := if |s| + |ps| <= TamFila then |s| + |ps| else TamFila;
            EnfileirarTodas(s, ps) == (s + ps)[..n]
    decreases |ps|
  {
    if ps != [] {
      var anteriores := ps[..|ps| - 1];
      EnfileirarTodasGuardaAsPrimeiras(s, anteriores);
      assert s + ps == (s + anteriores) + [ps[|ps| - 1]];
    }
  }

  /** Enqueueing pieces with real ids into a queue holding real ids leaves only real ids. */
  lemma {:induction false} EnfileirarTodasGuardaIds(s: seq<Peca>, ps: seq<Peca>)
    requires |s| <= TamFila && IdsValidos(s) && IdsValidos(ps)
    ensures IdsValidos(EnfileirarTodas(s, ps))
    decreases |ps|
  {
    if ps != [] {
      EnfileirarTodasGuardaIds(s, ps[..|ps| - 1]);
    }
  }

  /** The n pieces accepted by an empty queue come out as a full queue in the order they went in. */
  lemma EnfileirarTodasNaFilaVazia(ps: seq<Peca>)
    requires |ps| == TamFila
    ensures EnfileirarTodas([], ps) == ps
    ensures |EnfileirarTodas([], ps)| == TamFila
  {
    EnfileirarTodasGuardaAsPrimeiras([], ps);
    assert [] + ps == ps;
  }

  /** One call on the queue, as a caller may issue it. */
  datatype OpFila = Enfileirar(p: Peca) | Desenfileirar

  /** What a run of calls did: the final queue, the pieces accepted and the pieces removed. */
  datatype Historico = Historico(final: seq<Peca>, aceitas: seq<Peca>, removidas: seq<Peca>)

  /** Runs the calls in order; failed calls add nothing to `aceitas` or `removidas`. */
  function Executar(s: seq<Peca>, ops: seq<OpFila>): (h: Historico)
    requires |s| <= TamFila
    decreases |ops|
  {
    if ops == [] then Historico(s, [], [])
    else match ops[0]
      case Enfileirar(p) =>
        var h := Executar(Enfileirada(s, p), ops[1..]);
        if |s| == TamFila then h else Historico(h.final, [p] + h.aceitas, h.removidas)
      case Desenfileirar =>
        if |s| == 0 then Executar(s, ops[1..])
        else
          var h := Executar(s[1..], ops[1..]);
          Historico(h.final, h.aceitas, [s[0]] + h.removidas)
  }

  /**
   * FIFO for every interleaving: the removed pieces followed by what is left are
   * exactly the pieces held at the start followed by the pieces accepted, and the
   * queue never holds more than TamFila pieces.
   */
  lemma {:induction false} FifoEmQualquerOrdem(s: seq<Peca>, ops: seq<OpFila>)
    requires |s| <= TamFila
    ensures |Executar(s, ops).final| <= TamFila
    ensures Executar(s, ops).removidas + Executar(s, ops).final == s + Executar(s, ops).aceitas
    decreases |ops|
  {
    if ops != [] {
      match ops[0]
      case Enfileirar(p) =>
        FifoEmQualquerOrdem(Enfileirada(s, p), ops[1..]);
        var h := Executar(Enfileirada(s, p), ops[1..]);
        if |s| < TamFila {
          assert s + ([p] + h.aceitas) == (s + [p]) + h.aceitas;
        }
      case Desenfileirar =>
        if |s| > 0 {
          FifoEmQualquerOrdem(s[1..], ops[1..]);
          var h := Executar(s[1..], ops[1..]);
          assert s == [s[0]] + s[1..];
          assert ([s[0]] + h.removidas) + h.final == [s[0]] + (h.removidas + h.final);
        } else {
          FifoEmQualquerOrdem(s, ops[1..]);
        }
    }
  }

  /**
   * From an empty queue, the i-th successful removal returns the i-th accepted
   * piece: the removed pieces are a prefix of the accepted ones.
   */
  lemma FifoDesdeVazia(ops: seq<OpFila>)
    ensures var h := Executar([], ops);
            |h.removidas| <= |h.aceitas| && h.removidas == h.aceitas[..|h.removidas|]
  {
    FifoEmQualquerOrdem([], ops);
    var h := Executar([], ops);
    assert h.removidas + h.final == h.aceitas;
    assert (h.removidas + h.final)[..|h.removidas|] == h.removidas;
  }

  // ---------------------------------------------------------------------------
  // The queue object
  // ---------------------------------------------------------------------------

  class Fila {
    var itens: array<Peca>
    var frente: int
    var tras: int
    var qtd: int

    /** The queue invariant: sizes and indices in range, and tras one slot behind frente + qtd. */
    ghost predicate Valid()
      reads this
    {
      itens.Length == TamFila &&
      0 <= qtd <= TamFila && 0 <= frente < TamFila && -1 <= tras < TamFila &&
      CaudaCoerente(frente, tras, qtd)
    }

    /** The pieces held, head first. */
    ghost function Conteudo(): seq<Peca>
      reads this, itens
      requires Valid()
    {
      Janela(itens[..], frente, qtd)
    }

    /** The storage of a declared `Fila`, initialised by inicializarFila. */
    constructor ()
      ensures Valid() && fresh(itens)
      ensures Conteudo() == [] && frente == 0 && tras == -1 && qtd == 0
    {
      itens := new Peca[TamFila];
      frente, tras, qtd := 0, 0, 0;
      new;
      InicializarFila();
    }

    /** inicializarFila: an empty queue whose first piece will go to slot 0. */
    method InicializarFila()
      requires itens.Length == TamFila
      modifies this
      ensures Valid() && itens == old(itens)
      ensures Conteudo() == [] && frente == 0 && tras == -1 && qtd == 0
    {
      frente := 0;
      tras := -1;
      qtd := 0;
    }

    /** filaVazia */
    predicate FilaVazia()
      reads this, itens
      requires Valid()
      ensures FilaVazia() <==> Conteudo() == []
    {
      qtd == 0
    }

    /** filaCheia */
    predicate FilaCheia()
      reads this, itens
      requires Valid()
      ensures FilaCheia() <==> |Conteudo()| == TamFila
    {
      qtd == TamFila
    }

    /** enfileirar: a full queue is left as it is; otherwise p goes to slot (tras + 1) % TamFila. */
    method Enfileirar(p: Peca)
      requires Valid()
      modifies this, itens
      ensures Valid() && itens == old(itens) && frente == old(frente)
      ensures Conteudo() == Enfileirada(old(Conteudo()), p)
      ensures old(qtd) == TamFila ==> unchanged(this, itens)
      ensures old(qtd) < TamFila ==>
        qtd == old(qtd) + 1 && tras == (old(tras) + 1) % TamFila &&
        itens[..] == old(itens[..])[tras := p]
    {
      if FilaCheia() {
        return;
      }
      ghost var antes := itens[..];
      CaudaPreservada(frente, tras, qtd);
      JanelaEnfileirar(antes, frente, qtd, p);
      tras := (tras + 1) % TamFila;
      itens[tras] := p;
      qtd := qtd + 1;
    }

    /** desenfileirar: the sentinel from an empty queue; otherwise the head, with frente advanced modulo TamFila. */
    method Desenfileirar() returns (removida: Peca)
      requires Valid()
      modifies this
      ensures Valid() && itens == old(itens) && tras == old(tras)
      ensures (removida, Conteudo()) == Desenfileirada(old(Conteudo()))
      ensures old(qtd) == 0 ==> removida == Vazia && unchanged(this)
      ensures old(qtd) > 0 ==>
        removida == itens[old(frente)] &&
        frente == (old(frente) + 1) % TamFila && qtd == old(qtd) - 1
    {
      if FilaVazia() {
        return Vazia;
      }
      CaudaPreservada(frente, tras, qtd);
      JanelaDesenfileirar(itens[..], frente, qtd);
      removida := itens[frente];
      frente := (frente + 1) % TamFila;
      qtd := qtd - 1;
    }
  }
}
