/**
 * The reserve stack (Pilha): TamPilha slots and the index of the top piece
 * (topo), -1 while the stack is empty.
 */
module PilhaReserva {
  import opened Pecas

  // ---------------------------------------------------------------------------
  // The stack as a sequence, bottom first
  // ---------------------------------------------------------------------------

  /** empilhar on the abstract stack: a full stack refuses the piece and stays as it was. */
  function Empilhada(s: seq<Peca>, p: Peca): (r: seq<Peca>)
    requires |s| <= TamPilha
    ensures |r| <= TamPilha
  {
    if |s| == TamPilha then s else s + [p]
  }

  /** desempilhar on the abstract stack: the top and the rest, or the sentinel and no change. */
  function Desempilhada(s: seq<Peca>): (r: (Peca, seq<Peca>))
  {
    if |s| == 0 then (Vazia, s) else (s[|s| - 1], s[..|s| - 1])
  }

  /** A pop right after a successful push returns the pushed piece and restores the stack. */
  lemma EmpilharDesempilhar(s: seq<Peca>, p: Peca)
    requires |s| < TamPilha
    ensures Desempilhada(Empilhada(s, p)) == (p, s)
  {
  }

  /**
   * With real ids held, the callers' test `id != -1` on what desempilhar
   * returned is exactly "the stack was not empty".
   */
  lemma SentinelaSoDaPilhaVazia(s: seq<Peca>)
    requires IdsValidos(s)
    ensures Desempilhada(s).0.id != -1 <==> s != []
  {
  }

  /** Several empilhar calls in a row, first piece first. */
  function EmpilharTodas(s: seq<Peca>, ps: seq<Peca>): (r: seq<Peca>)
    requires |s| <= TamPilha
    ensures |r| <= TamPilha
    decreases |ps|
  {
    if ps == [] then s else Empilhada(EmpilharTodas(s, ps[..|ps| - 1]), ps[|ps| - 1])
  }

  /** n desempilhar calls in a row: the pieces returned, in the order returned, and the stack left. */
  function DesempilharVarias(s: seq<Peca>, n: nat): (r: (seq<Peca>, seq<Peca>))
    decreases n
  {
    if n == 0 then ([], s)
    else
      var (topo, resto) := Desempilhada(s);
      var (seguintes, final) := DesempilharVarias(resto, n - 1);
      ([topo] + seguintes, final)
  }

  /** Pieces pushed onto a stack with room for all of them land on top, in order. */
  lemma {:induction false} EmpilharTodasCabem(s: seq<Peca>, ps: seq<Peca>)
    requires |s| + |ps| <= TamPilha
    ensures EmpilharTodas(s, ps) == s + ps
    decreases |ps|
  {
    if ps != [] {
      EmpilharTodasCabem(s, ps[..|ps| - 1]);
      assert s + ps == (s + ps[..|ps| - 1]) + [ps[|ps| - 1]];
    }
  }

  /** LIFO: pushing pieces that fit and popping as many returns them newest first and restores the stack. */
  lemma {:induction false} Lifo(s: seq<Peca>, ps: seq<Peca>)
    requires |s| + |ps| <= TamPilha
    ensures DesempilharVarias(s + ps, |ps|).1 == s
    ensures var saidas := DesempilharVarias(s + ps, |ps|).0;
            |saidas| == |ps| && forall i :: 0 <= i < |ps| ==> saidas[i] == ps[|ps| - 1 - i]
    decreases |ps|
  {
    if ps != [] {
      var anteriores := ps[..|ps| - 1];
      Lifo(s, anteriores);
      var t := s + ps;
      assert t[..|t| - 1] == s + anteriores;
      var saidas := DesempilharVarias(t, |ps|).0;
      var anterioresSaidas := DesempilharVarias(s + anteriores, |anteriores|).0;
      assert saidas == [ps[|ps| - 1]] + anterioresSaidas;
      forall i | 0 < i < |ps|
        ensures saidas[i] == ps[|ps| - 1 - i]
      {
        assert saidas[i] == anterioresSaidas[i - 1];
      }
    }
  }

  // ---------------------------------------------------------------------------
  // The stack object
  // ---------------------------------------------------------------------------

  class Pilha {
    var itens: array<Peca>
    var topo: int

    /** The stack invariant: -1 <= topo < TamPilha. */
    ghost predicate Valid()
      reads this
    {
      itens.Length == TamPilha && -1 <= topo < TamPilha
    }

    /** The pieces held, bottom first: the top is the last. */
    ghost function Conteudo(): seq<Peca>
      reads this, itens
      requires Valid()
    {
      itens[..topo + 1]
    }

    /** The storage of a declared `Pilha`, initialised by inicializarPilha. */
    constructor ()
      ensures Valid() && fresh(itens)
      ensures Conteudo() == [] && topo == -1
    {
      itens := new Peca[TamPilha];
      topo := 0;
      new;
      InicializarPilha();
    }

    /** inicializarPilha: an empty stack. */
    method InicializarPilha()
      requires itens.Length == TamPilha
      modifies this
      ensures Valid() && itens == old(itens)
      ensures Conteudo() == [] && topo == -1
    {
      topo := -1;
    }

    /** pilhaVazia */
    predicate PilhaVazia()
      reads this, itens
      requires Valid()
      ensures PilhaVazia() <==> Conteudo() == []
    {
      topo == -1
    }

    /** pilhaCheia */
    predicate PilhaCheia()
      reads this, itens
      requires Valid()
      ensures PilhaCheia() <==> |Conteudo()| == TamPilha
    {
      topo == TamPilha - 1
    }

    /** empilhar: a full stack is left as it is; otherwise topo grows and the piece goes there. */
    method Empilhar(nova: Peca)
      requires Valid()
      modifies this, itens
      ensures Valid() && itens == old(itens)
      ensures Conteudo() == Empilhada(old(Conteudo()), nova)
      ensures old(topo) == TamPilha - 1 ==> unchanged(this, itens)
      ensures old(topo) < TamPilha - 1 ==>
        topo == old(topo) + 1 && itens[..] == old(itens[..])[topo := nova]
    {
      if PilhaCheia() {
        return;
      }
      topo := topo + 1;
      itens[topo] := nova;
      assert itens[..topo + 1] == old(itens[..topo + 1]) + [nova];
    }

    /** desempilhar: the sentinel from an empty stack; otherwise the top, with topo lowered. */
    method Desempilhar() returns (removida: Peca)
      requires Valid()
      modifies this
      ensures Valid() && itens == old(itens)
      ensures (removida, Conteudo()) == Desempilhada(old(Conteudo()))
      ensures old(topo) == -1 ==> removida == Vazia && unchanged(this)
      ensures old(topo) >= 0 ==> removida == itens[old(topo)] && topo == old(topo) - 1
    {
      if PilhaVazia() {
        return Vazia;
      }
      removida := itens[topo];
      topo := topo - 1;
      assert itens[..topo + 1] == old(itens[..topo + 1])[..topo + 1];
    }
  }
}
