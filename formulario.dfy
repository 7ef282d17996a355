/** The contact form's mail link (`comportamentoFormulario`): a click on the
    mail button reads the four fields, builds a subject and a body from them
    and points the browser at a `mailto:` URI for a fixed recipient, carrying
    `subject` and `body` header fields (section 2 of RFC 6068). The
    percent-encoding (`encodeURIComponent`) is the parameter `enc`. */
module Formulario {
  import opened Dom

  const Destinatario := "professorclaudiosilva@ifpa.edu.br"
  const PrefixoAssunto := "Contato - Espaço Memória: "

  /** What `document.getElementById(id).value` finds for one field. */
  datatype Campo = SemElemento | SemValor | Valor(s: string)

  /** What a click on the mail button does. */
  datatype Efeito =
    | Nada            // no handler was installed
    | ErroDeTipo      // reading `.value` of a missing field threw; nothing happens after it
    | Navegar(uri: string)

  /** `campo.value || ''`. */
  function ValorOuVazio(c: Campo): (r: string)
    requires !c.SemElemento?
    ensures c.Valor? ==> r == c.s
    ensures c.SemValor? ==> r == ""
  {
    if c.Valor? then c.s else ""
  }

  function Assunto(nome: string): string
  {
    PrefixoAssunto + nome
  }

  function Corpo(nome: string, email: string, telefone: string, mensagem: string): string
  {
    "Nome: " + nome + "\nE-mail: " + email + "\nTelefone: " + telefone + "\n\nMensagem:\n" + mensagem
  }

  function ComporMailto(nome: string, email: string, telefone: string, mensagem: string, enc: string -> string): string
  {
    "mailto:" + Destinatario + "?subject=" + enc(Assunto(nome)) + "&body=" + enc(Corpo(nome, email, telefone, mensagem))
  }

  /** The click on the mail button. The handler exists only when the form and
      the button are both on the page; it navigates exactly when all four
      fields exist, a field without a value counting as empty. */
  function CliqueMailto(formPresente: bool, botaoPresente: bool,
                        nome: Campo, email: Campo, telefone: Campo, mensagem: Campo,
                        enc: string -> string): (r: Efeito)
    ensures r == Nada <==> !(formPresente && botaoPresente)
    ensures r == ErroDeTipo <==>
      formPresente && botaoPresente &&
      (nome.SemElemento? || email.SemElemento? || telefone.SemElemento? || mensagem.SemElemento?)
    ensures r.Navegar? ==>
      r.uri == ComporMailto(ValorOuVazio(nome), ValorOuVazio(email), ValorOuVazio(telefone), ValorOuVazio(mensagem), enc)
  {
    if !formPresente || !botaoPresente then Nada
    else if nome.SemElemento? || email.SemElemento? || telefone.SemElemento? || mensagem.SemElemento? then ErroDeTipo
    else Navegar(ComporMailto(ValorOuVazio(nome), ValorOuVazio(email), ValorOuVazio(telefone), ValorOuVazio(mensagem), enc))
  }

  /** A field with no value reads as an empty one. */
  function Normalizar(c: Campo): Campo
  {
    if c.SemValor? then Valor("") else c
  }

  /** Only whether a field exists and the text it yields matter: a field
      without a value leads to the same outcome as an empty field. */
  lemma SemValorComoVazio(formPresente: bool, botaoPresente: bool,
                          nome: Campo, email: Campo, telefone: Campo, mensagem: Campo, enc: string -> string)
    ensures CliqueMailto(formPresente, botaoPresente, nome, email, telefone, mensagem, enc)
         == CliqueMailto(formPresente, botaoPresente, Normalizar(nome), Normalizar(email), Normalizar(telefone), Normalizar(mensagem), enc)
  {
  }

  /** The position of the first `c` in `s`, or `|s|` when there is none. */
  function IndiceDe(s: string, c: char): (r: nat)
    ensures r <= |s|
    ensures forall k :: 0 <= k < r ==> s[k] != c
    ensures r < |s| ==> s[r] == c
  {
    if s == [] || s[0] == c then 0 else 1 + IndiceDe(s[1..], c)
  }

  /** What follows the prefix `p` in `s`, when `s` starts with `p`. */
  function AposPrefixo(s: string, p: string): Option<string>
  {
    if |p| <= |s| && s[..|p|] == p then Some(s[|p|..]) else None
  }

  /** `s` cut at its first `c`, the `c` dropped, when there is one. */
  function Dividir(s: string, c: char): Option<(string, string)>
  {
    var i := IndiceDe(s, c);
    if i == |s| then None else Some((s[..i], s[i + 1..]))
  }

  lemma AposPrefixoConcat(p: string, r: string)
    ensures AposPrefixo(p + r, p) == Some(r)
  {
    assert (p + r)[..|p|] == p;
    assert (p + r)[|p|..] == r;
  }

  lemma DividirConcat(a: string, c: char, b: string)
    requires forall k :: 0 <= k < |a| ==> a[k] != c
    ensures Dividir(a + [c] + b, c) == Some((a, b))
  {
    var s := a + [c] + b;
    assert s[|a|] == c;
    assert IndiceDe(s, c) == |a|;
    assert s[..|a|] == a;
    assert s[|a| + 1..] == b;
  }

  /** The recipient's address has no `?`, so the first `?` ends it. */
  lemma DestinatarioSemInterrogacao()
    ensures forall k :: 0 <= k < |Destinatario| ==> Destinatario[k] != '?'
  {
  }

  /** Splits a `mailto:` URI of this shape into its recipient, its `subject`
      value and its `body` value (still encoded). */
  function LerMailto(uri: string): Option<(string, string, string)>
  {
    match AposPrefixo(uri, "mailto:")
    case None => None
    case Some(resto) =>
      match Dividir(resto, '?')
      case None => None
      case Some((destinatario, consulta)) =>
        match AposPrefixo(consulta, "subject=")
        case None => None
        case Some(q) =>
          match Dividir(q, '&')
          case None => None
          case Some((assunto, q2)) =>
            match AposPrefixo(q2, "body=")
            case None => None
            case Some(corpo) => Some((destinatario, assunto, corpo))
  }

  /** The link regrouped around the two separators the reader looks for. */
  lemma ComporMailtoAgrupado(a: string, b: string)
    ensures "mailto:" + Destinatario + "?subject=" + a + "&body=" + b
         == "mailto:" + (Destinatario + ['?'] + ("subject=" + (a + ['&'] + ("body=" + b))))
  {
    var u := "mailto:" + Destinatario + "?subject=" + a + "&body=" + b;
    var v := "mailto:" + (Destinatario + ['?'] + ("subject=" + (a + ['&'] + ("body=" + b))));
    assert |u| == |v|;
    forall k | 0 <= k < |u| ensures u[k] == v[k] {
    }
  }

  /** The link the button builds reads back as the fixed recipient, the
      encoded subject and the encoded body, as long as the encoded subject
      holds no `&` (which `encodeURIComponent` always escapes). */
  lemma LerComporMailto(nome: string, email: string, telefone: string, mensagem: string, enc: string -> string)
    requires forall k :: 0 <= k < |enc(Assunto(nome))| ==> enc(Assunto(nome))[k] != '&'
    ensures LerMailto(ComporMailto(nome, email, telefone, mensagem, enc))
         == Some((Destinatario, enc(Assunto(nome)), enc(Corpo(nome, email, telefone, mensagem))))
  {
    var a, b := enc(Assunto(nome)), enc(Corpo(nome, email, telefone, mensagem));
    var q2 := "body=" + b;
    var q := a + ['&'] + q2;
    var consulta := "subject=" + q;
    var resto := Destinatario + ['?'] + consulta;
    ComporMailtoAgrupado(a, b);
    assert ComporMailto(nome, email, telefone, mensagem, enc) == "mailto:" + resto;
    AposPrefixoConcat("mailto:", resto);
    DestinatarioSemInterrogacao();
    DividirConcat(Destinatario, '?', consulta);
    AposPrefixoConcat("subject=", q);
    DividirConcat(a, '&', q2);
    AposPrefixoConcat("body=", b);
  }

  /** When the encoding is injective and keeps `&` out of the subject, the
      link determines the name and the whole body it was built from. */
  lemma MailtoDeterminaCampos(n1: string, e1: string, t1: string, m1: string,
                              n2: string, e2: string, t2: string, m2: string, enc: string -> string)
    requires forall x, y :: enc(x) == enc(y) ==> x == y
    requires forall k :: 0 <= k < |enc(Assunto(n1))| ==> enc(Assunto(n1))[k] != '&'
    requires forall k :: 0 <= k < |enc(Assunto(n2))| ==> enc(Assunto(n2))[k] != '&'
    requires ComporMailto(n1, e1, t1, m1, enc) == ComporMailto(n2, e2, t2, m2, enc)
    ensures n1 == n2
    ensures Corpo(n1, e1, t1, m1) == Corpo(n2, e2, t2, m2)
  {
    LerComporMailto(n1, e1, t1, m1, enc);
    LerComporMailto(n2, e2, t2, m2, enc);
    assert Assunto(n1) == Assunto(n2);
    assert n1 == Assunto(n1)[|PrefixoAssunto|..];
    assert n2 == Assunto(n2)[|PrefixoAssunto|..];
  }
}
