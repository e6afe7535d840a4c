/**
 * Exchanges between the queue and the stack (trocarTopo, trocarMultiplas):
 * queue position i (slot (frente + i) % TamFila) is paired with stack slot
 * topo - i, and the two pieces of each pair change places.
 */
module Trocas {
  import opened Pecas
  import opened FilaCircular
  import opened PilhaReserva

  // ---------------------------------------------------------------------------
  // Slot level: the raw arrays of both containers
  // ---------------------------------------------------------------------------

  /** Which queue position slot k holds when the head is at slot frente. */
  ghost function Posicao(frente: int, k: int): (d: int)
  {
    if frente <= k then k - frente else k - frente + TamFila
  }

  /** Slot (frente + d) % TamFila holds position d, and slot k is the slot of its position. */
  lemma PosicaoDoSlot(frente: int, d: int, k: int)
    requires 0 <= frente < TamFila && 0 <= d < TamFila && 0 <= k < TamFila
    ensures Posicao(frente, (frente + d) % TamFila) == d
    ensures (frente + Posicao(frente, k)) % TamFila == k
    ensures 0 <= Posicao(frente, k) < TamFila
  {
  }

  /** The arguments for which n pairs can be formed: the stack reaches down n slots from topo. */
  ghost predicate Pares(fs: seq<Peca>, ps: seq<Peca>, frente: int, topo: int, n: nat)
  {
    |fs| == TamFila && |ps| == TamPilha && 0 <= frente < TamFila &&
    n <= TamPilha && n - 1 <= topo < TamPilha
  }

  /**
   * The n pairs exchanged all at once: a queue slot at position i < n receives the
   * piece at stack slot topo - i, and that stack slot receives the piece at queue
   * slot (frente + i) % TamFila; every other slot keeps its piece.
   */
  ghost function Trocadas(fs: seq<Peca>, ps: seq<Peca>, frente: int, topo: int, n: nat): (r: (seq<Peca>, seq<Peca>))
    requires Pares(fs, ps, frente, topo, n)
  {
    (seq(TamFila, k requires 0 <= k < TamFila =>
       if Posicao(frente, k) < n then ps[topo - Posicao(frente, k)] else fs[k]),
     seq(TamPilha, j requires 0 <= j < TamPilha =>
       if j <= topo && topo - j < n then fs[(frente + (topo - j)) % TamFila] else ps[j]))
  }

  /** The n pairs exchanged one after the other, pair 0 first, each through a temporary. */
  ghost function TrocasEmSequencia(fs: seq<Peca>, ps: seq<Peca>, frente: int, topo: int, n: nat): (r: (seq<Peca>, seq<Peca>))
    requires Pares(fs, ps, frente, topo, n)
    ensures |r.0| == TamFila && |r.1| == TamPilha
    decreases n
  {
    if n == 0 then (fs, ps)
    else
      var (f, p) := TrocasEmSequencia(fs, ps, frente, topo, n - 1);
      var idxFila, idxPilha := (frente + (n - 1)) % TamFila, topo - (n - 1);
      (f[idxFila := p[idxPilha]], p[idxPilha := f[idxFila]])
  }

  /**
   * Exchanging pair n - 1 after the first n - 1 pairs have been exchanged gives
   * the simultaneous exchange of n pairs: pair n - 1 touches neither a queue slot
   * nor a stack slot of the earlier pairs.
   */
  lemma MaisUmPar(fs: seq<Peca>, ps: seq<Peca>, frente: int, topo: int, n: nat)
    requires Pares(fs, ps, frente, topo, n) && n > 0
    ensures var antes := Trocadas(fs, ps, frente, topo, n - 1);
            var idxFila, idxPilha := (frente + (n - 1)) % TamFila, topo - (n - 1);
            antes.0[idxFila := antes.1[idxPilha]] == Trocadas(fs, ps, frente, topo, n).0 &&
            antes.1[idxPilha := antes.0[idxFila]] == Trocadas(fs, ps, frente, topo, n).1
  {
    var antes := Trocadas(fs, ps, frente, topo, n - 1);
    var depois := Trocadas(fs, ps, frente, topo, n);
    var idxFila, idxPilha := (frente + (n - 1)) % TamFila, topo - (n - 1);
    PosicaoDoSlot(frente, n - 1, 0);
    assert antes.0[idxFila := antes.1[idxPilha]] == depois.0 by {
      forall k | 0 <= k < TamFila
        ensures antes.0[idxFila := antes.1[idxPilha]][k] == depois.0[k]
      {
        PosicaoDoSlot(frente, n - 1, k);
      }
    }
    assert antes.1[idxPilha := antes.0[idxFila]] == depois.1;
  }

  /**
   * The pairs touch distinct slots on both sides, so doing the exchanges one after
   * the other is the same as doing them all at once.
   */
  lemma {:induction false} SequenciaIgualSimultanea(fs: seq<Peca>, ps: seq<Peca>, frente: int, topo: int, n: nat)
    requires Pares(fs, ps, frente, topo, n)
    ensures TrocasEmSequencia(fs, ps, frente, topo, n) == Trocadas(fs, ps, frente, topo, n)
    decreases n
  {
    if n > 0 {
      SequenciaIgualSimultanea(fs, ps, frente, topo, n - 1);
      MaisUmPar(fs, ps, frente, topo, n);
    } else {
      var nenhuma := Trocadas(fs, ps, frente, topo, 0);
      assert nenhuma.0 == fs && nenhuma.1 == ps;
    }
  }

  /** Exchanging the same pairs twice puts every slot of both containers back as it was. */
  lemma TrocaInvolucao(fs: seq<Peca>, ps: seq<Peca>, frente: int, topo: int, n: nat)
    requires Pares(fs, ps, frente, topo, n)
    ensures var (f, p) := Trocadas(fs, ps, frente, topo, n);
            Trocadas(f, p, frente, topo, n) == (fs, ps)
  {
    var (f, p) := Trocadas(fs, ps, frente, topo, n);
    var (f2, p2) := Trocadas(f, p, frente, topo, n);
    forall k | 0 <= k < TamFila
      ensures f2[k] == fs[k]
    {
      PosicaoDoSlot(frente, 0, k);
    }
    forall j | 0 <= j < TamPilha && j <= topo && topo - j < n
      ensures p2[j] == ps[j]
    {
      PosicaoDoSlot(frente, topo - j, 0);
    }
    assert f2 == fs;
    assert p2 == ps;
  }

  // ---------------------------------------------------------------------------
  // Sequence level: what the exchange does to the queue and to the stack
  // ---------------------------------------------------------------------------

  /** The pieces of s, last first. */
  function Reverso(s: seq<Peca>): (r: seq<Peca>)
    ensures |r| == |s|
    ensures forall i :: 0 <= i < |s| ==> r[i] == s[|s| - 1 - i]
  {
    if s == [] then [] else Reverso(s[1..]) + [s[0]]
  }

  /**
   * The first n pieces of the queue change places with the n top pieces of the
   * stack: the queue now starts with those stack pieces, top first, and the stack
   * now ends with those queue pieces, head on top.
   */
  function TrocaPontas(fila: seq<Peca>, pilha: seq<Peca>, n: nat): (r: (seq<Peca>, seq<Peca>))
    requires n <= |fila| && n <= |pilha|
    ensures |r.0| == |fila| && |r.1| == |pilha|
    ensures forall i :: 0 <= i < n ==> r.0[i] == pilha[|pilha| - 1 - i]
    ensures forall j :: |pilha| - n <= j < |pilha| ==> r.1[j] == fila[|pilha| - 1 - j]
    ensures forall i :: n <= i < |fila| ==> r.0[i] == fila[i]
    ensures forall j :: 0 <= j < |pilha| - n ==> r.1[j] == pilha[j]
  {
    (Reverso(pilha[|pilha| - n..]) + fila[n..], pilha[..|pilha| - n] + Reverso(fila[..n]))
  }

  /** The exchange only moves pieces between the two containers, so real ids stay real on both sides. */
  lemma TrocaPontasGuardaIds(fila: seq<Peca>, pilha: seq<Peca>, n: nat)
    requires n <= |fila| && n <= |pilha|
    requires IdsValidos(fila) && IdsValidos(pilha)
    ensures IdsValidos(TrocaPontas(fila, pilha, n).0) && IdsValidos(TrocaPontas(fila, pilha, n).1)
  {
    var r := TrocaPontas(fila, pilha, n);
    forall i | 0 <= i < |r.0|
      ensures r.0[i].id >= 0
    {
      if i < n {
        assert r.0[i] == pilha[|pilha| - 1 - i];
      }
    }
    forall j | 0 <= j < |r.1|
      ensures r.1[j].id >= 0
    {
      if j >= |pilha| - n {
        assert r.1[|pilha| - 1 - (|pilha| - 1 - j)] == fila[|pilha| - 1 - j];
      }
    }
  }

  /** Queue position i after the slot-level exchange: a stack piece for the first n positions, its own piece after. */
  lemma TrocadaNaPosicao(fs: seq<Peca>, ps: seq<Peca>, frente: int, topo: int, n: nat, i: int)
    requires Pares(fs, ps, frente, topo, n) && 0 <= i < TamFila
    ensures Trocadas(fs, ps, frente, topo, n).0[(frente + i) % TamFila]
         == if i < n then ps[topo - i] else fs[(frente + i) % TamFila]
  {
    PosicaoDoSlot(frente, i, 0);
  }

  /** Stack slot j after the slot-level exchange: a queue piece for the n slots below topo, its own piece elsewhere. */
  lemma TrocadaNoSlot(fs: seq<Peca>, ps: seq<Peca>, frente: int, topo: int, n: nat, j: int)
    requires Pares(fs, ps, frente, topo, n) && 0 <= j < TamPilha
    ensures Trocadas(fs, ps, frente, topo, n).1[j]
         == if j <= topo && topo - j < n then fs[(frente + (topo - j)) % TamFila] else ps[j]
  {
  }

  /** Queue position i of the exchanged slots is position i of TrocaPontas on the queue's sequence. */
  lemma TrocadaNaFilaEm(fs: seq<Peca>, ps: seq<Peca>, frente: int, topo: int, qtd: int, n: nat, i: int)
    requires Pares(fs, ps, frente, topo, n) && n <= qtd <= TamFila && 0 <= i < qtd
    ensures Janela(Trocadas(fs, ps, frente, topo, n).0, frente, qtd)[i]
         == TrocaPontas(Janela(fs, frente, qtd), ps[..topo + 1], n).0[i]
  {
    var depois := Trocadas(fs, ps, frente, topo, n).0;
    var antes := Janela(fs, frente, qtd);
    var fila := TrocaPontas(antes, ps[..topo + 1], n).0;
    TrocadaNaPosicao(fs, ps, frente, topo, n, i);
    assert Janela(depois, frente, qtd)[i] == depois[(frente + i) % TamFila];
    if i < n {
      assert fila[i] == ps[..topo + 1][topo - i] == ps[topo - i];
    } else {
      assert fila[i] == antes[i] == fs[(frente + i) % TamFila];
    }
  }

  /** Seen as a queue, the slot-level exchange of n pairs puts the n top stack pieces, top first, at the head. */
  lemma TrocadasNaFila(fs: seq<Peca>, ps: seq<Peca>, frente: int, topo: int, qtd: int, n: nat)
    requires Pares(fs, ps, frente, topo, n) && n <= qtd <= TamFila
    ensures Janela(Trocadas(fs, ps, frente, topo, n).0, frente, qtd)
         == TrocaPontas(Janela(fs, frente, qtd), ps[..topo + 1], n).0
  {
    forall i | 0 <= i < qtd
      ensures Janela(Trocadas(fs, ps, frente, topo, n).0, frente, qtd)[i]
           == TrocaPontas(Janela(fs, frente, qtd), ps[..topo + 1], n).0[i]
    {
      TrocadaNaFilaEm(fs, ps, frente, topo, qtd, n, i);
    }
  }

  /** Seen as a stack, the slot-level exchange of n pairs puts the first n queue pieces on top, head on top. */
  lemma TrocadasNaPilha(fs: seq<Peca>, ps: seq<Peca>, frente: int, topo: int, qtd: int, n: nat)
    requires Pares(fs, ps, frente, topo, n) && n <= qtd <= TamFila
    ensures Trocadas(fs, ps, frente, topo, n).1[..topo + 1]
         == TrocaPontas(Janela(fs, frente, qtd), ps[..topo + 1], n).1
    ensures Trocadas(fs, ps, frente, topo, n).1[topo + 1..] == ps[topo + 1..]
  {
    var p := Trocadas(fs, ps, frente, topo, n).1;
    var fila := Janela(fs, frente, qtd);
    var pilha := TrocaPontas(fila, ps[..topo + 1], n).1;
    forall j | 0 <= j <= topo
      ensures p[j] == pilha[j]
    {
      TrocadaNoSlot(fs, ps, frente, topo, n, j);
    }
    forall j | topo < j < TamPilha
      ensures p[j] == ps[j]
    {
      TrocadaNoSlot(fs, ps, frente, topo, n, j);
    }
  }

  /** Both views of the slot-level exchange at once, and real ids stay real on both sides. */
  lemma TrocadasNasDuasVistas(fs: seq<Peca>, ps: seq<Peca>, frente: int, topo: int, qtd: int, n: nat)
    requires Pares(fs, ps, frente, topo, n) && n <= qtd <= TamFila
    ensures (Janela(Trocadas(fs, ps, frente, topo, n).0, frente, qtd), Trocadas(fs, ps, frente, topo, n).1[..topo + 1])
         == TrocaPontas(Janela(fs, frente, qtd), ps[..topo + 1], n)
    ensures IdsValidos(Janela(fs, frente, qtd)) && IdsValidos(ps[..topo + 1]) ==>
              IdsValidos(Janela(Trocadas(fs, ps, frente, topo, n).0, frente, qtd)) &&
              IdsValidos(Trocadas(fs, ps, frente, topo, n).1[..topo + 1])
  {
    TrocadasNaFila(fs, ps, frente, topo, qtd, n);
    TrocadasNaPilha(fs, ps, frente, topo, qtd, n);
    if IdsValidos(Janela(fs, frente, qtd)) && IdsValidos(ps[..topo + 1]) {
      TrocaPontasGuardaIds(Janela(fs, frente, qtd), ps[..topo + 1], n);
    }
  }

  /**
   * The three-pair exchange on a queue of five and a full stack of three: the
   * queue now starts with the old stack top, middle and bottom, and the stack,
   * bottom first, holds the old third, second and first queue pieces.
   */
  lemma TrocaMultiplaExemplo(q0: Peca, q1: Peca, q2: Peca, q3: Peca, q4: Peca, s0: Peca, s1: Peca, s2: Peca)
    ensures TrocaPontas([q0, q1, q2, q3, q4], [s0, s1, s2], 3) == ([s2, s1, s0, q3, q4], [q2, q1, q0])
  {
    var r := TrocaPontas([q0, q1, q2, q3, q4], [s0, s1, s2], 3);
    assert r.0 == [s2, s1, s0, q3, q4];
    assert r.1 == [q2, q1, q0];
  }

  // ---------------------------------------------------------------------------
  // The exchanges on the two objects
  // ---------------------------------------------------------------------------

  /**
   * trocarTopo: when both containers hold a piece, the queue head and the stack
   * top change places; otherwise nothing changes. frente, tras, qtd and topo are
   * never written.
   */
  method TrocarTopo(f: Fila, p: Pilha)
    requires f.Valid() && p.Valid()
    modifies f.itens, p.itens
    ensures f.Valid() && p.Valid()
    ensures old(f.qtd) == 0 || old(p.topo) == -1 ==> unchanged(f.itens, p.itens)
    ensures old(f.qtd) > 0 && old(p.topo) >= 0 ==>
      (f.itens[..], p.itens[..]) == Trocadas(old(f.itens[..]), old(p.itens[..]), f.frente, p.topo, 1)
    ensures old(f.qtd) > 0 && old(p.topo) >= 0 ==>
      (f.Conteudo(), p.Conteudo()) == TrocaPontas(old(f.Conteudo()), old(p.Conteudo()), 1)
    ensures IdsValidos(old(f.Conteudo())) && IdsValidos(old(p.Conteudo())) ==>
      IdsValidos(f.Conteudo()) && IdsValidos(p.Conteudo())
  {
    if f.FilaVazia() || p.PilhaVazia() {
      return;
    }
    assert f.itens != p.itens;
    ghost var fs, ps := f.itens[..], p.itens[..];
    var idxFrente := f.frente;
    var temp := f.itens[idxFrente];
    f.itens[idxFrente] := p.itens[p.topo];
    p.itens[p.topo] := temp;
    assert (f.itens[..], p.itens[..]) == TrocasEmSequencia(fs, ps, f.frente, p.topo, 1);
    SequenciaIgualSimultanea(fs, ps, f.frente, p.topo, 1);
    TrocadasNasDuasVistas(fs, ps, f.frente, p.topo, f.qtd, 1);
  }

  /**
   * trocarMultiplas: when the queue holds at least three pieces and the stack is
   * full, queue position i and stack slot topo - i change places for i = 0, 1, 2,
   * one pair per turn of the loop; otherwise nothing changes.
   */
  method TrocarMultiplas(f: Fila, p: Pilha)
    requires f.Valid() && p.Valid()
    modifies f.itens, p.itens
    ensures f.Valid() && p.Valid()
    ensures old(f.qtd) < 3 || old(p.topo) < 2 ==> unchanged(f.itens, p.itens)
    ensures old(f.qtd) >= 3 && old(p.topo) >= 2 ==>
      (f.itens[..], p.itens[..]) == Trocadas(old(f.itens[..]), old(p.itens[..]), f.frente, p.topo, 3)
    ensures old(f.qtd) >= 3 && old(p.topo) >= 2 ==>
      (f.Conteudo(), p.Conteudo()) == TrocaPontas(old(f.Conteudo()), old(p.Conteudo()), 3)
    ensures IdsValidos(old(f.Conteudo())) && IdsValidos(old(p.Conteudo())) ==>
      IdsValidos(f.Conteudo()) && IdsValidos(p.Conteudo())
  {
    if f.qtd < 3 || p.topo < 2 {
      return;
    }
    assert f.itens != p.itens;
    ghost var fs, ps := f.itens[..], p.itens[..];
    for i := 0 to 3
      invariant (f.itens[..], p.itens[..]) == TrocasEmSequencia(fs, ps, f.frente, p.topo, i)
    {
      var idxFila := (f.frente + i) % TamFila;
      var idxPilha := p.topo - i;
      var temp := f.itens[idxFila];
      f.itens[idxFila] := p.itens[idxPilha];
      p.itens[idxPilha] := temp;
    }
    SequenciaIgualSimultanea(fs, ps, f.frente, p.topo, 3);
    TrocadasNasDuasVistas(fs, ps, f.frente, p.topo, f.qtd, 3);
  }
}
