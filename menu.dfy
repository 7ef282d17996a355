/** The hamburger menu (`controlarMenu`): a navigation panel that is open
    or closed, and one `aria-expanded` flag per toggle button. A click on a
    button toggles the panel and updates that button's flag; it never reaches
    the document's handler. A click anywhere else reaches the document's
    handler, which closes an open panel when the click landed outside the
    panel and outside every button. */
module Menu {

  /** Where a click that reaches the document landed. */
  datatype Alvo = DentroNav | DentroBotao(k: nat) | Fora

  datatype EstadoMenu = EstadoMenu(aberto: bool, ariaExpandido: seq<bool>)

  /** The state after a click on button `k`. */
  function AposCliqueBotao(s: EstadoMenu, k: nat): (r: EstadoMenu)
    requires k < |s.ariaExpandido|
    ensures r.aberto == !s.aberto
    ensures |r.ariaExpandido| == |s.ariaExpandido|
    ensures r.ariaExpandido[k] == r.aberto
    ensures forall j :: 0 <= j < |s.ariaExpandido| && j != k ==> r.ariaExpandido[j] == s.ariaExpandido[j]
  {
    EstadoMenu(!s.aberto, s.ariaExpandido[k := !s.aberto])
  }

  /** Every flag false. */
  function TodosFalsos(n: nat): (r: seq<bool>)
    ensures |r| == n && forall j :: 0 <= j < n ==> !r[j]
  {
    if n == 0 then [] else TodosFalsos(n - 1) + [false]
  }

  /** The state after a click that reaches the document. */
  function AposCliqueDocumento(s: EstadoMenu, alvo: Alvo): (r: EstadoMenu)
    ensures |r.ariaExpandido| == |s.ariaExpandido|
    ensures s.aberto && alvo == Fora ==>
      !r.aberto && forall j :: 0 <= j < |r.ariaExpandido| ==> !r.ariaExpandido[j]
    ensures !s.aberto || alvo != Fora ==> r == s
  {
    if !s.aberto then s
    else if alvo.Fora? then EstadoMenu(false, TodosFalsos(|s.ariaExpandido|))
    else s
  }

  /** Every button's flag says whether the panel is open. */
  predicate Coerente(s: EstadoMenu)
  {
    forall j :: 0 <= j < |s.ariaExpandido| ==> s.ariaExpandido[j] == s.aberto
  }

  /** Two clicks on buttons bring the panel back to where it was, and two
      clicks on the same button leave every other button's flag as it was;
      when that button's flag agreed with the panel, they restore everything. */
  lemma DoisCliquesBotao(s: EstadoMenu, k: nat, k2: nat)
    requires k < |s.ariaExpandido| && k2 < |s.ariaExpandido|
    ensures AposCliqueBotao(AposCliqueBotao(s, k), k2).aberto == s.aberto
    ensures k == k2 ==> forall j :: 0 <= j < |s.ariaExpandido| && j != k ==>
      AposCliqueBotao(AposCliqueBotao(s, k), k2).ariaExpandido[j] == s.ariaExpandido[j]
    ensures k == k2 && s.ariaExpandido[k] == s.aberto ==> AposCliqueBotao(AposCliqueBotao(s, k), k2) == s
  {
    if k == k2 && s.ariaExpandido[k] == s.aberto {
      var r := AposCliqueBotao(AposCliqueBotao(s, k), k2);
      assert r.ariaExpandido == s.ariaExpandido;
    }
  }

  /** An outside click is the only document click that changes anything,
      and it leaves the panel closed with every flag in agreement. */
  lemma CliqueForaFecha(s: EstadoMenu, alvo: Alvo)
    ensures AposCliqueDocumento(s, alvo) != s ==> s.aberto && alvo == Fora
    ensures s.aberto && alvo == Fora ==> !AposCliqueDocumento(s, alvo).aberto && Coerente(AposCliqueDocumento(s, alvo))
    ensures AposCliqueDocumento(AposCliqueDocumento(s, alvo), alvo) == AposCliqueDocumento(s, alvo)
  {
  }

  /** With a single button every event keeps its flag in agreement with the panel. */
  lemma UmBotaoCoerente(s: EstadoMenu, alvo: Alvo)
    requires |s.ariaExpandido| == 1 && Coerente(s)
    ensures Coerente(AposCliqueBotao(s, 0))
    ensures Coerente(AposCliqueDocumento(s, alvo))
  {
  }

  /** With two buttons, opening with one and closing with the other leaves
      the first button announcing an open panel while the panel is closed. */
  lemma DoisBotoesDessincronizam()
    ensures var s := AposCliqueBotao(AposCliqueBotao(EstadoMenu(false, [false, false]), 0), 1);
      !s.aberto && s.ariaExpandido == [true, false] && !Coerente(s)
  {
    var s1 := AposCliqueBotao(EstadoMenu(false, [false, false]), 0);
    assert s1.ariaExpandido == [true, false];
    var s2 := AposCliqueBotao(s1, 1);
    assert s2.ariaExpandido == [true, false];
    assert s2.ariaExpandido[0] != s2.aberto;
  }

  /** The panel and its buttons as the page holds them. `instalado` is false
      when the panel or every button is missing: then no handler exists. */
  class ControleMenu {
    const instalado: bool
    var aberto: bool
    var ariaExpandido: seq<bool>

    function Estado(): EstadoMenu
      reads this
    {
      EstadoMenu(aberto, ariaExpandido)
    }

    /** `controlarMenu()` on a page whose panel is or is not present and
        whose buttons carry the flags `ariaInicial`. */
    constructor (navPresente: bool, abertoInicial: bool, ariaInicial: seq<bool>)
      ensures instalado == (navPresente && |ariaInicial| > 0)
      ensures aberto == abertoInicial && ariaExpandido == ariaInicial
    {
      instalado := navPresente && |ariaInicial| > 0;
      aberto := abertoInicial;
      ariaExpandido := ariaInicial;
    }

    /** The click handler of button `k`. */
    method CliqueBotao(k: nat)
      requires k < |ariaExpandido|
      modifies this
      ensures Estado() == if instalado then AposCliqueBotao(old(Estado()), k) else old(Estado())
    {
      if !instalado {
        return;
      }
      aberto := !aberto;
      ariaExpandido := ariaExpandido[k := aberto];
    }

    /** The document's click handler. */
    method CliqueDocumento(alvo: Alvo)
      modifies this
      ensures Estado() == if instalado then AposCliqueDocumento(old(Estado()), alvo) else old(Estado())
    {
      if !instalado || !aberto {
        return;
      }
      if alvo.Fora? {
        aberto := false;
        var j := 0;
        while j < |ariaExpandido|
          invariant 0 <= j <= |ariaExpandido| == |old(ariaExpandido)|
          invariant ariaExpandido[..j] == TodosFalsos(j)
          invariant ariaExpandido[j..] == old(ariaExpandido)[j..]
          invariant !aberto
        {
          ariaExpandido := ariaExpandido[j := false];
          j := j + 1;
        }
        assert ariaExpandido == ariaExpandido[..j];
      }
    }
  }
}
