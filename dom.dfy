/** The page's document tree, seen as values.

    A node is a text node or an element; an element carries its tag, its
    class name, its other attributes, its children and the delay of its
    entrance animation (the only part of `style.animation` that varies).
    An element the page code changes in place (the strip, the gallery, a
    heading) is a `Conteiner` whose list of children the methods reassign. */
module Dom {

  datatype Option<T> = None | Some(value: T)

  datatype No =
    | Texto(dado: string)
    | Elem(tag: string, classe: string, atributos: map<string, string>, filhos: seq<No>, atraso: Option<real>)

  /** An element the page updates in place. */
  class Conteiner {
    var filhos: seq<No>
  }

  /** `textContent` of a node: the concatenated text of every text node below it. */
  function TextoDe(n: No): string
    decreases n, 1
  {
    match n
    case Texto(d) => d
    case Elem(_, _, _, filhos, _) => TextoDeTodos(filhos)
  }

  /** `textContent` of a list of sibling nodes. */
  function TextoDeTodos(ns: seq<No>): string
    decreases ns, 0
  {
    if ns == [] then "" else TextoDe(ns[0]) + TextoDeTodos(ns[1..])
  }

  /** The children an element has after `textContent = s`: the setter
      removes every child and, unless `s` is empty, adds one text node. */
  function FilhosDoTexto(s: string): (r: seq<No>)
    ensures TextoDeTodos(r) == s
    ensures |r| <= 1
  {
    if s == "" then [] else [Texto(s)]
  }

  /** The attribute map an element ends up with: every key except the two
      that `criarElemento` routes to `className` and `textContent`. */
  function OutrosAtributos(atribs: map<string, string>): map<string, string>
  {
    map ch | ch in atribs && ch != "class" && ch != "text" :: atribs[ch]
  }

  /** `criarElemento(tag, atribs)`: a fresh element whose properties are set
      one key of `atribs` at a time. The key "class" sets the class name, the
      key "text" sets the text content, every other key sets that attribute. */
  method CriarElemento(tag: string, atribs: map<string, string>) returns (el: No)
    ensures el.Elem? && el.tag == tag && el.atraso == None
    ensures el.classe == if "class" in atribs then atribs["class"] else ""
    ensures el.filhos == if "text" in atribs then FilhosDoTexto(atribs["text"]) else []
    ensures el.atributos == OutrosAtributos(atribs)
  {
    el := Elem(tag, "", map[], [], None);
    var restantes := atribs.Keys;
    while restantes != {}
      invariant restantes <= atribs.Keys
      invariant el.Elem? && el.tag == tag && el.atraso == None
      invariant el.classe == if "class" in atribs.Keys - restantes then atribs["class"] else ""
      invariant el.filhos == if "text" in atribs.Keys - restantes then FilhosDoTexto(atribs["text"]) else []
      invariant el.atributos.Keys == atribs.Keys - restantes - {"class", "text"}
      invariant forall ch :: ch in el.atributos ==> el.atributos[ch] == atribs[ch]
      decreases restantes
    {
      var ch :| ch in restantes;
      if ch == "class" {
        el := el.(classe := atribs[ch]);
      } else if ch == "text" {
        el := el.(filhos := FilhosDoTexto(atribs[ch]));
      } else {
        el := el.(atributos := el.atributos[ch := atribs[ch]]);
      }
      restantes := restantes - {ch};
    }
  }

  /** `pai.appendChild(filho)` for a freshly created child. */
  function AnexarFilho(pai: No, filho: No): (r: No)
    requires pai.Elem?
    ensures r.Elem? && r.filhos == pai.filhos + [filho]
    ensures r.tag == pai.tag && r.classe == pai.classe && r.atributos == pai.atributos && r.atraso == pai.atraso
    ensures TextoDe(r) == TextoDe(pai) + TextoDe(filho)
  {
    TextoDeTodosConcat(pai.filhos, [filho]);
    pai.(filhos := pai.filhos + [filho])
  }

  /** The text of two runs of siblings is the text of the first followed by
      the text of the second. */
  lemma {:induction false} TextoDeTodosConcat(a: seq<No>, b: seq<No>)
    ensures TextoDeTodos(a + b) == TextoDeTodos(a) + TextoDeTodos(b)
    decreases |a|
  {
    if a == [] {
      assert a + b == b;
    } else {
      assert (a + b)[0] == a[0];
      assert (a + b)[1..] == a[1..] + b;
      TextoDeTodosConcat(a[1..], b);
    }
  }
}
