/** Letter-by-letter headings (`animarTitulos`): every heading marked for
    animation is trimmed, emptied and rebuilt as one `span` of class
    "letra" per character of the trimmed text, a space turned into a
    no-break space; span `idx` then receives the entrance delay
    `idx * 0.06 + r * 0.03` seconds, `r` a random number in [0, 1). */
module Titulos {
  import opened Dom

  const Nbsp: char := '\U{A0}'

  /** The characters `String.prototype.trim` removes: ECMAScript's
      WhiteSpace (tab, vertical tab, form feed, space, no-break space, the
      byte order mark and the other Unicode space separators) and
      LineTerminator (line feed, carriage return, line and paragraph separator). */
  predicate EhEspaco(c: char)
  {
    || c == '\t' || c == '\U{B}' || c == '\U{C}' || c == ' ' || c == Nbsp || c == '\U{FEFF}'
    || c == '\U{1680}' || ('\U{2000}' <= c <= '\U{200A}') || c == '\U{202F}' || c == '\U{205F}' || c == '\U{3000}'
    || c == '\n' || c == '\r' || c == '\U{2028}' || c == '\U{2029}'
  }

  /** `s` without its leading white space. */
  function SemInicio(s: string): string
  {
    if s != [] && EhEspaco(s[0]) then SemInicio(s[1..]) else s
  }

  /** `s` without its trailing white space. */
  function SemFim(s: string): string
  {
    if s != [] && EhEspaco(s[|s| - 1]) then SemFim(s[..|s| - 1]) else s
  }

  /** `s.trim()`. */
  function Aparar(s: string): string
  {
    SemFim(SemInicio(s))
  }

  /** Dropping leading white space leaves a suffix that starts with a
      non-space character, and drops nothing but white space. */
  lemma {:induction false} SemInicioSufixo(s: string)
    ensures |SemInicio(s)| <= |s| && SemInicio(s) == s[|s| - |SemInicio(s)|..]
    ensures forall k :: 0 <= k < |s| - |SemInicio(s)| ==> EhEspaco(s[k])
    ensures SemInicio(s) == [] || !EhEspaco(SemInicio(s)[0])
  {
    if s != [] && EhEspaco(s[0]) {
      SemInicioSufixo(s[1..]);
    }
  }

  /** Dropping trailing white space leaves a prefix that ends with a
      non-space character, and drops nothing but white space. */
  lemma {:induction false} SemFimPrefixo(s: string)
    ensures |SemFim(s)| <= |s| && SemFim(s) == s[..|SemFim(s)|]
    ensures forall k :: |SemFim(s)| <= k < |s| ==> EhEspaco(s[k])
    ensures SemFim(s) == [] || !EhEspaco(SemFim(s)[|SemFim(s)| - 1])
  {
    if s != [] && EhEspaco(s[|s| - 1]) {
      SemFimPrefixo(s[..|s| - 1]);
      assert s[..|s| - 1][..|SemFim(s)|] == s[..|SemFim(s)|];
    }
  }

  /** The trimmed text is a slice of the text that begins and ends with a
      non-space character; everything cut off on either side is white space. */
  lemma ApararFatia(s: string)
    ensures |SemInicio(s)| <= |s|
    ensures var a := |s| - |SemInicio(s)|;
      && a + |Aparar(s)| <= |s| && Aparar(s) == s[a..a + |Aparar(s)|]
      && (forall k :: 0 <= k < a ==> EhEspaco(s[k]))
      && (forall k :: a + |Aparar(s)| <= k < |s| ==> EhEspaco(s[k]))
      && (Aparar(s) == [] || (!EhEspaco(Aparar(s)[0]) && !EhEspaco(Aparar(s)[|Aparar(s)| - 1])))
  {
    var t := SemInicio(s);
    var a := |s| - |t|;
    SemInicioSufixo(s);
    FimDeFatia(s, a, t);
  }

  lemma FimDeFatia(s: string, a: nat, t: string)
    requires a <= |s| && t == s[a..] && (t == [] || !EhEspaco(t[0]))
    ensures a + |SemFim(t)| <= |s| && SemFim(t) == s[a..a + |SemFim(t)|]
    ensures forall k :: a + |SemFim(t)| <= k < |s| ==> EhEspaco(s[k])
    ensures SemFim(t) == [] || (!EhEspaco(SemFim(t)[0]) && !EhEspaco(SemFim(t)[|SemFim(t)| - 1]))
  {
    SemFimPrefixo(t);
    var r := SemFim(t);
    forall k | a + |r| <= k < |s| ensures EhEspaco(s[k]) {
      assert s[k] == t[k - a];
    }
    if r != [] {
      assert r[0] == t[0];
    }
  }

  /** Trimming twice is trimming once. */
  lemma ApararIdempotente(s: string)
    ensures Aparar(Aparar(s)) == Aparar(s)
  {
    ApararFatia(s);
    var r := Aparar(s);
    assert SemInicio(r) == r;
    SemFimPrefixo(r);
    assert SemFim(r) == r;
  }

  /** The character a unit shows for the character `c` of the text. */
  function Letra(c: char): char
  {
    if c == ' ' then Nbsp else c
  }

  /** The text with every space turned into a no-break space. */
  function Substituir(t: string): (u: string)
  {
    if t == [] then [] else [Letra(t[0])] + Substituir(t[1..])
  }

  /** Substituting keeps the length and touches nothing but spaces. */
  lemma {:induction false} SubstituirEm(t: string)
    ensures |Substituir(t)| == |t|
    ensures forall i :: 0 <= i < |t| ==> Substituir(t)[i] == if t[i] == ' ' then Nbsp else t[i]
  {
    if t != [] {
      SubstituirEm(t[1..]);
      assert forall i :: 1 <= i < |t| ==> Substituir(t)[i] == Substituir(t[1..])[i - 1];
    }
  }

  /** The text with every no-break space turned back into a space. */
  function Restaurar(u: string): string
  {
    if u == [] then [] else [if u[0] == Nbsp then ' ' else u[0]] + Restaurar(u[1..])
  }

  /** A text without no-break spaces of its own is recovered from its units. */
  lemma {:induction false} RestaurarSubstituir(t: string)
    requires forall i :: 0 <= i < |t| ==> t[i] != Nbsp
    ensures Restaurar(Substituir(t)) == t
  {
    if t != [] {
      RestaurarSubstituir(t[1..]);
      assert Substituir(t)[1..] == Substituir(t[1..]);
    }
  }

  /** The delay of unit `idx`, in seconds, for the random number `r`. */
  function Atraso(idx: nat, r: real): real
  {
    idx as real * 0.06 + r * 0.03
  }

  /** Values `Math.random()` can return. */
  predicate Aleatorios(rs: seq<real>)
  {
    forall i :: 0 <= i < |rs| ==> 0.0 <= rs[i] < 1.0
  }

  /** The unit for the character `c`, with no animation yet. */
  function Unidade(c: char): No
  {
    Elem("span", "letra", map[], FilhosDoTexto([Letra(c)]), None)
  }

  /** The heading's children once rebuilt for the trimmed text `t`, with the
      random numbers `rs`: one unit per character, unit `i` delayed by
      `Atraso(i, rs[i])`. */
  function Letreiro(t: string, rs: seq<real>): seq<No>
    requires |rs| >= |t|
  {
    seq(|t|, i requires 0 <= i < |t| => Unidade(t[i]).(atraso := Some(Atraso(i, rs[i]))))
  }

  /** The rebuilt heading reads as the trimmed text with its spaces made
      unbreakable, one character per unit, in order. */
  lemma LetreiroTexto(t: string, rs: seq<real>)
    requires |rs| >= |t|
    ensures |Letreiro(t, rs)| == |t|
    ensures forall i :: 0 <= i < |t| ==> TextoDe(Letreiro(t, rs)[i]) == [Letra(t[i])]
    ensures TextoDeTodos(Letreiro(t, rs)) == Substituir(t)
  {
    TextoDeUnidades(Letreiro(t, rs), t);
  }

  /** `u` is the unit for `c`, whatever its delay. */
  predicate UnidadeDe(u: No, c: char)
  {
    u.Elem? && u.tag == "span" && u.classe == "letra" && u.atributos == map[] && u.filhos == FilhosDoTexto([Letra(c)])
  }

  lemma {:induction false} TextoDeUnidades(us: seq<No>, t: string)
    requires |us| == |t|
    requires forall i :: 0 <= i < |t| ==> UnidadeDe(us[i], t[i])
    ensures forall i :: 0 <= i < |t| ==> TextoDe(us[i]) == [Letra(t[i])]
    ensures TextoDeTodos(us) == Substituir(t)
  {
    forall i | 0 <= i < |t| ensures TextoDe(us[i]) == [Letra(t[i])] {
      assert TextoDeTodos([Texto([Letra(t[i])])]) == [Letra(t[i])];
    }
    if t != [] {
      TextoDeUnidades(us[1..], t[1..]);
    }
  }

  /** Since the jitter stays below the step, later units start strictly later. */
  lemma AtrasosCrescentes(t: string, rs: seq<real>)
    requires |rs| >= |t| && Aleatorios(rs)
    ensures forall i :: 0 <= i < |t| ==> Letreiro(t, rs)[i].atraso.Some?
    ensures forall i, j :: 0 <= i < j < |t| ==>
      Letreiro(t, rs)[i].atraso.value < Letreiro(t, rs)[j].atraso.value
  {
    forall i, j | 0 <= i < j < |t|
      ensures Letreiro(t, rs)[i].atraso.value < Letreiro(t, rs)[j].atraso.value
    {
      AtrasoCrescente(i, j, rs[i], rs[j]);
    }
  }

  lemma AtrasoCrescente(i: nat, j: nat, ri: real, rj: real)
    requires i < j && 0.0 <= ri < 1.0 && 0.0 <= rj < 1.0
    ensures Atraso(i, ri) < Atraso(j, rj)
  {
    assert i as real + 1.0 <= j as real;
  }

  /** The `criarElemento` call for character `ch`: a no-break space stands
      in for a space. */
  method CriarLetra(ch: char) returns (span: No)
    ensures span == Unidade(ch)
  {
    if ch == ' ' {
      span := CriarElemento("span", map["class" := "letra", "text" := [Nbsp]]);
    } else {
      span := CriarElemento("span", map["class" := "letra", "text" := [ch]]);
    }
    assert span.atributos == map[];
  }

  /** One heading: its trimmed text is taken, its content cleared, one unit
      appended per character, and then every unit given its delay. A heading
      whose text is all white space ends up empty. */
  method AnimarTitulo(el: Conteiner, rs: seq<real>)
    requires |rs| >= |Aparar(TextoDeTodos(el.filhos))|
    modifies el
    ensures el.filhos == Letreiro(Aparar(old(TextoDeTodos(el.filhos))), rs)
  {
    var texto := Aparar(TextoDeTodos(el.filhos));
    el.filhos := FilhosDoTexto("");
    var letras: seq<No> := [];
    for i := 0 to |texto|
      invariant el.filhos == letras
      invariant |letras| == i
      invariant forall k :: 0 <= k < i ==> letras[k] == Unidade(texto[k])
    {
      var span := CriarLetra(texto[i]);
      el.filhos := el.filhos + [span];
      letras := letras + [span];
    }
    // `letras[idx]` and the heading's child `idx` are the same element
    for idx := 0 to |letras|
      invariant |el.filhos| == |letras|
      invariant forall k :: 0 <= k < idx ==> el.filhos[k] == letras[k].(atraso := Some(Atraso(k, rs[k])))
      invariant forall k :: idx <= k < |letras| ==> el.filhos[k] == letras[k]
    {
      var atraso := Atraso(idx, rs[idx]);
      el.filhos := el.filhos[idx := el.filhos[idx].(atraso := Some(atraso))];
    }
  }

  /** `depois` is what a heading holding `antes` holds once animated with `rs`. */
  predicate Animado(antes: seq<No>, depois: seq<No>, rs: seq<real>)
  {
    |rs| >= |Aparar(TextoDeTodos(antes))| && depois == Letreiro(Aparar(TextoDeTodos(antes)), rs)
  }

  /** Every heading marked for animation, each with its own random numbers. */
  method AnimarTitulos(els: seq<Conteiner>, rss: seq<seq<real>>)
    requires |rss| == |els|
    requires forall a, b :: 0 <= a < b < |els| ==> els[a] != els[b]
    requires forall a :: 0 <= a < |els| ==> |rss[a]| >= |Aparar(TextoDeTodos(els[a].filhos))|
    modifies set a | 0 <= a < |els| :: els[a]
    ensures forall a :: 0 <= a < |els| ==> Animado(old(els[a].filhos), els[a].filhos, rss[a])
  {
    for n := 0 to |els|
      invariant forall a :: 0 <= a < n ==> Animado(old(els[a].filhos), els[a].filhos, rss[a])
      invariant forall a :: n <= a < |els| ==> els[a].filhos == old(els[a].filhos)
    {
      assert forall a :: 0 <= a < |els| && a != n ==> els[a] != els[n];
      AnimarTitulo(els[n], rss[n]);
      assert Animado(old(els[n].filhos), els[n].filhos, rss[n]);
    }
  }
}
