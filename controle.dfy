/**
 * The steps the menu of `main` runs on the two containers, with the menu loop,
 * the reading of the option and the printing left out. gerarPeca's random kind
 * is a parameter (`sorteio`), and the id counter idGlobal is threaded through:
 * each step takes its value and returns the value after the step.
 */
module Controle {
  import opened Pecas
  import opened FilaCircular
  import opened PilhaReserva

  /** The start of `main`: TamFila pieces generated with consecutive ids and enqueued one per turn. */
  method Preencher(f: Fila, sorteios: seq<nat>, idGlobal: nat) returns (idSeguinte: nat)
    requires f.Valid() && |sorteios| == TamFila
    modifies f, f.itens
    ensures f.Valid() && f.itens == old(f.itens)
    ensures f.Conteudo() == EnfileirarTodas(old(f.Conteudo()), Geradas(idGlobal, sorteios))
    ensures idSeguinte == idGlobal + TamFila
    ensures IdsValidos(old(f.Conteudo())) ==> IdsValidos(f.Conteudo())
  {
    idSeguinte := idGlobal;
    ghost var inicial := f.Conteudo();
    for i := 0 to TamFila
      invariant f.Valid() && f.itens == old(f.itens)
      invariant idSeguinte == idGlobal + i
      invariant f.Conteudo() == EnfileirarTodas(old(f.Conteudo()), Geradas(idGlobal, sorteios[..i]))
    {
      f.Enfileirar(GerarPeca(idSeguinte, sorteios[i]));
      assert Geradas(idGlobal, sorteios[..i + 1])
          == Geradas(idGlobal, sorteios[..i]) + [GerarPeca(idSeguinte, sorteios[i])];
      idSeguinte := idSeguinte + 1;
    }
    assert sorteios[..TamFila] == sorteios;
    if IdsValidos(inicial) {
      EnfileirarTodasGuardaIds(inicial, Geradas(idGlobal, sorteios));
    }
  }

  /** After the start of `main` the queue is full and holds the ids idGlobal .. idGlobal + 4, oldest first. */
  lemma PreenchimentoInicial(sorteios: seq<nat>, idGlobal: nat)
    requires |sorteios| == TamFila
    ensures var fila := EnfileirarTodas([], Geradas(idGlobal, sorteios));
            |fila| == TamFila && forall i :: 0 <= i < TamFila ==> fila[i] == GerarPeca(idGlobal + i, sorteios[i])
  {
    EnfileirarTodasNaFilaVazia(Geradas(idGlobal, sorteios));
  }

  /**
   * Option 1 of mestre.c and aventureiro.c, "play": dequeue, then enqueue a new
   * piece whether or not a piece came out.
   */
  method Jogar(f: Fila, sorteio: nat, idGlobal: nat) returns (jogada: Peca, idSeguinte: nat)
    requires f.Valid()
    modifies f, f.itens
    ensures f.Valid() && f.itens == old(f.itens)
    ensures jogada == Desenfileirada(old(f.Conteudo())).0
    ensures f.Conteudo() == Enfileirada(Desenfileirada(old(f.Conteudo())).1, GerarPeca(idGlobal, sorteio))
    ensures idSeguinte == idGlobal + 1
    ensures old(f.qtd) == TamFila ==> f.qtd == TamFila && jogada == old(f.Conteudo())[0]
    ensures IdsValidos(old(f.Conteudo())) ==> IdsValidos(f.Conteudo())
  {
    jogada := f.Desenfileirar();
    f.Enfileirar(GerarPeca(idGlobal, sorteio));
    idSeguinte := idGlobal + 1;
  }

  /**
   * Option 2 of mestre.c and aventureiro.c, "reserve": unless the stack is full,
   * dequeue; if a piece came out (its id is not -1), push it and enqueue a new one.
   * A queued piece whose id is -1 would be taken for the sentinel and dropped;
   * with ids from the counter (IdsValidos) that never happens.
   */
  method Reservar(f: Fila, p: Pilha, sorteio: nat, idGlobal: nat) returns (idSeguinte: nat)
    requires f.Valid() && p.Valid()
    modifies f, f.itens, p, p.itens
    ensures f.Valid() && p.Valid() && f.itens == old(f.itens) && p.itens == old(p.itens)
    ensures old(p.topo) == TamPilha - 1 || old(f.qtd) == 0 ==>
      unchanged(f, f.itens, p, p.itens) && idSeguinte == idGlobal
    ensures old(p.topo) < TamPilha - 1 && old(f.qtd) > 0 && old(f.Conteudo())[0].id == -1 ==>
      f.Conteudo() == old(f.Conteudo())[1..] && unchanged(p, p.itens) && idSeguinte == idGlobal
    ensures old(p.topo) < TamPilha - 1 && old(f.qtd) > 0 && old(f.Conteudo())[0].id != -1 ==>
      p.Conteudo() == old(p.Conteudo()) + [old(f.Conteudo())[0]] && p.topo == old(p.topo) + 1 &&
      f.Conteudo() == old(f.Conteudo())[1..] + [GerarPeca(idGlobal, sorteio)] && f.qtd == old(f.qtd) &&
      idSeguinte == idGlobal + 1
    ensures IdsValidos(old(f.Conteudo())) ==> IdsValidos(f.Conteudo())
    ensures IdsValidos(old(f.Conteudo())) && IdsValidos(old(p.Conteudo())) ==> IdsValidos(p.Conteudo())
  {
    idSeguinte := idGlobal;
    if p.PilhaCheia() {
      return;
    }
    assert f.itens != p.itens;
    ghost var fila, pilha := f.Conteudo(), p.Conteudo();
    var reservada := f.Desenfileirar();
    if reservada.id != -1 {
      p.Empilhar(reservada);
      assert p.Conteudo() == pilha + [fila[0]];
      f.Enfileirar(GerarPeca(idGlobal, sorteio));
      assert f.Conteudo() == fila[1..] + [GerarPeca(idGlobal, sorteio)];
      idSeguinte := idGlobal + 1;
    }
  }

  /** Option 3 of mestre.c and aventureiro.c, "use a reserved piece": pop the stack. */
  method Usar(p: Pilha) returns (usada: Peca)
    requires p.Valid()
    modifies p
    ensures p.Valid() && p.itens == old(p.itens)
    ensures (usada, p.Conteudo()) == Desempilhada(old(p.Conteudo()))
    ensures IdsValidos(old(p.Conteudo())) ==> (usada.id != -1 <==> old(p.topo) >= 0)
  {
    usada := p.Desempilhar();
  }

  /** Option 2 of novato.c, "insert": a new piece is generated (the counter always advances) and enqueued. */
  method Inserir(f: Fila, sorteio: nat, idGlobal: nat) returns (nova: Peca, idSeguinte: nat)
    requires f.Valid()
    modifies f, f.itens
    ensures f.Valid() && f.itens == old(f.itens)
    ensures nova == GerarPeca(idGlobal, sorteio)
    ensures f.Conteudo() == Enfileirada(old(f.Conteudo()), nova)
    ensures idSeguinte == idGlobal + 1
    ensures IdsValidos(old(f.Conteudo())) ==> IdsValidos(f.Conteudo())
  {
    nova := GerarPeca(idGlobal, sorteio);
    idSeguinte := idGlobal + 1;
    f.Enfileirar(nova);
  }

  /**
   * The session of novato.c: prefill an empty queue with ids 0 to 4, play once,
   * insert once. The queue is full before, the play returns the piece with id 0,
   * and the insertion fills the queue again.
   */
  method SessaoNovato(sorteios: seq<nat>) returns (cheiaAntes: bool, jogada: Peca, cheiaDepois: bool)
    requires |sorteios| == TamFila + 1
    ensures cheiaAntes && cheiaDepois
    ensures jogada == GerarPeca(0, sorteios[0]) && jogada.id == 0
  {
    var fila := new Fila();
    var idGlobal := Preencher(fila, sorteios[..TamFila], 0);
    PreenchimentoInicial(sorteios[..TamFila], 0);
    cheiaAntes := fila.FilaCheia();
    jogada := fila.Desenfileirar();
    var nova;
    nova, idGlobal := Inserir(fila, sorteios[TamFila], idGlobal);
    cheiaDepois := fila.FilaCheia();
  }

  /**
   * The session of aventureiro.c and mestre.c with options 2 then 3: after the
   * prefill, reserving moves the piece with id 0 onto the stack while the refill
   * keeps the queue full, and using the reserve returns that piece.
   */
  method SessaoReserva(sorteios: seq<nat>) returns (cheia: bool, usada: Peca, idFinal: nat)
    requires |sorteios| == TamFila + 1
    ensures cheia
    ensures usada == GerarPeca(0, sorteios[0])
    ensures idFinal == TamFila + 1
  {
    var fila := new Fila();
    var pilha := new Pilha();
    var idGlobal := Preencher(fila, sorteios[..TamFila], 0);
    PreenchimentoInicial(sorteios[..TamFila], 0);
    assert IdsValidos(fila.Conteudo());
    idFinal := Reservar(fila, pilha, sorteios[TamFila], idGlobal);
    cheia := fila.FilaCheia();
    usada := Usar(pilha);
  }

  /**
   * The stack on its own: three pushes fill it, a fourth is refused, three pops
   * return the pieces newest first, and a fourth pop returns the sentinel.
   */
  method SessaoPilha(a: Peca, b: Peca, c: Peca, d: Peca) returns (r1: Peca, r2: Peca, r3: Peca, r4: Peca)
    ensures r1 == c && r2 == b && r3 == a && r4 == Vazia
  {
    var pilha := new Pilha();
    pilha.Empilhar(a);
    pilha.Empilhar(b);
    pilha.Empilhar(c);
    pilha.Empilhar(d);
    r1 := pilha.Desempilhar();
    r2 := pilha.Desempilhar();
    r3 := pilha.Desempilhar();
    r4 := pilha.Desempilhar();
  }
}
