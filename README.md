# Espaço Memória page behaviours, modelled in Dafny

`script.js` is the page code of a small archive website. It runs five
routines when the page loads, and each one changes the page in a few
simple steps:

- `montarTiraFilme` fills the film strip (`#trilho`) with one frame per photo
  and then doubles the strip's content so that its CSS scroll can loop.
- `controlarMenu` wires the hamburger buttons to the navigation panel and
  closes the panel on a click outside it.
- `animarTitulos` rebuilds every `.animar-titulo` heading as one `span` per
  letter, each with a staggered entrance delay.
- `popularAcervo` fills the archive gallery (`#galeriaAcervo`) with one card per photo.
- `comportamentoFormulario` builds a `mailto:` link from the contact form's
  fields, with `subject` and `body` header fields as in section 2 of RFC 6068.

The model treats the page as values. A node is a text node or an element
record (`Dom.No`): a tag, a class name, the other attributes, the children,
and the element's animation delay. An element the code changes in place
(the strip, the gallery, a heading) is a `Dom.Conteiner` object whose
child list the methods reassign. The menu is a class holding the panel's
open flag and one `aria-expanded` flag per button. Its transitions are
specified by pure functions on `Menu.EstadoMenu`. The loops of the source
are `while`/`for` loops in methods. Each method's postcondition ties the
new state to a specification function (`Galeria.Molduras`,
`Titulos.Letreiro`, `Menu.AposCliqueBotao`, …). Lemmas then prove what the
page promises about those functions.

Files:

- `dom.dfy`: nodes, `textContent`, and `criarElemento`.
- `decimal.dfy`: the decimal text of `${i}`.
- `galeria.dfy`: the strip and the gallery.
- `menu.dfy`: the menu.
- `titulos.dfy`: `trim` and the letter headings.
- `formulario.dfy`: the mail link.

Points where the code behaves in a way its purpose might not suggest; the model follows the code:

- A heading whose text is only white space is not left alone. The code empties it, because `el.textContent = ''` runs before the letter loop (script.js:77-78).
- The headings are split flat, one unit per character. No word-grouped variant exists in `script.js`.
- A form field that is present but has no value counts as empty. A field missing from the page makes `.value` throw, so no navigation happens (`Formulario.Efeito.ErroDeTipo`, script.js:125-128).
- A button click sets `aria-expanded` only on the clicked button (script.js:57). With two buttons the flags can disagree with the panel (`Menu.DoisBotoesDessincronizam`).
- The panel's initial state and the buttons' initial flags come from the page markup. They are constructor parameters, not a fixed "closed" state.
- `trim` removes exactly the characters of ECMAScript's WhiteSpace and LineTerminator productions (section 12.2 and 12.3 of ECMAScript 2023).

## Model

| member | source | states |
|---|---|---|
| `Dom.CriarElemento` | script.js:13-21 | the new element has the given tag; key `class` becomes its class name, key `text` its sole text child, and its attributes are exactly the other keys with their values (`OutrosAtributos`); no other child; names are kept as given (see Left out) |
| `Dom.FilhosDoTexto` | script.js:17 | assigning `textContent = s` leaves children whose text is exactly `s`, at most one node |
| `Dom.AnexarFilho` | script.js:36 | `appendChild` puts the child last and keeps everything else; the element's text becomes its old text followed by the child's |
| `Numeros.Decimal` | script.js:35 | `${i}` is a non-empty string of decimal digits without a leading zero |
| `Numeros.ValorDecimalDeDecimal` | script.js:35 | reading the digits of `${n}` back gives `n` |
| `Numeros.DecimalInjetivo` | script.js:35 | distinct numbers give distinct texts |
| `Galeria.MoldurasEm` | script.js:33-38 | the frame list for `n` images has exactly `n` frames, and frame `k` shows image `k + 1` (ascending order from 1) |
| `Galeria.FotoDeterminaNumero` | script.js:35 | two image paths `imagens/foto{i}.jpg` are equal only when the number texts are |
| `Galeria.MolduraInjetiva` | script.js:35 | frames of distinct images differ, and so do their `src` paths |
| `Galeria.MoldurasDistintas` | script.js:109-114 | no two frames of one run show the same image |
| `Galeria.CriarMoldura` | script.js:34-36 | one iteration builds a `div` of the given class wrapping one `img` with `src = imagens/foto{i}.jpg` and `alt = label + i` |
| `Galeria.MontarTiraFilme` | script.js:24-44 | with the strip present, its content becomes `C + C`, where C is its prior content followed by frames 1..N (`alt = "Registro i"`): twice the length of C, both halves equal to C; with the strip absent nothing is modified |
| `Galeria.MontarTiraFilmePagina` | script.js:28 | with the page's 135 images the strip ends with `2 * prior + 270` children |
| `Galeria.PopularAcervo` | script.js:102-115 | with the gallery present, exactly N cards (`alt = "Acervo i"`, class `card-acervo`) follow its prior content in ascending order, with no duplication; with it absent nothing is modified |
| `Galeria.PopularAcervoPagina` | script.js:106 | with the page's 135 images the gallery gains exactly 135 cards |
| `Menu.AposCliqueBotao` | script.js:53-58 | a click on button k flips the panel and sets only button k's flag to the new state; every other flag is kept |
| `Menu.TodosFalsos` | script.js:66 | one false flag per button |
| `Menu.AposCliqueDocumento` | script.js:61-68 | a document click outside panel and buttons closes an open panel and clears every flag; a click while closed, or inside the panel or a button, changes nothing |
| `Menu.DoisCliquesBotao` | script.js:55-57 | two button clicks restore the panel's state; two clicks on one button keep the other flags, and restore everything when button and panel agreed |
| `Menu.CliqueForaFecha` | script.js:61-67 | only an outside click on an open panel changes the state; it leaves the panel closed with all flags agreeing, and repeating it changes nothing more |
| `Menu.UmBotaoCoerente` | script.js:52-68 | with one button, both handlers keep its flag equal to the panel's state |
| `Menu.DoisBotoesDessincronizam` | script.js:57 | with two buttons, open with the first and close with the second: the panel is closed while the first button still says expanded |
| `Menu.ControleMenu.constructor` | script.js:47-50 | the handlers exist only when the panel is present and there is at least one button; the state starts from the page's own |
| `Menu.ControleMenu.CliqueBotao` | script.js:53-58 | the button handler performs `AposCliqueBotao` when installed and nothing otherwise |
| `Menu.ControleMenu.CliqueDocumento` | script.js:61-68 | the document handler, its loop over the buttons included, performs `AposCliqueDocumento` when installed and nothing otherwise |
| `Titulos.SemInicioSufixo` | script.js:77 | dropping leading white space keeps a suffix that starts with a non-space and removes only white space |
| `Titulos.SemFimPrefixo` | script.js:77 | dropping trailing white space keeps a prefix that ends with a non-space and removes only white space |
| `Titulos.ApararFatia` | script.js:77 | `trim()` yields a contiguous slice of the text, with white space alone cut from either end and none left at its ends |
| `Titulos.FimDeFatia` | script.js:77 | trimming the end of a suffix that starts with a non-space keeps a slice of the original with that first character |
| `Titulos.ApararIdempotente` | script.js:77 | trimming a trimmed text changes nothing |
| `Titulos.SubstituirEm` | script.js:83-91 | the unit characters have the text's length; character i is `texto[i]`, except that a space becomes U+00A0 |
| `Titulos.RestaurarSubstituir` | script.js:83-91 | a text holding no U+00A0 of its own is recovered from its units by turning U+00A0 back into a space |
| `Titulos.LetreiroTexto` | script.js:77-92 | the rebuilt heading has exactly one unit per character of the trimmed text, unit i reads `texto[i]` (a space as U+00A0), and the heading's whole text is the substituted trimmed text |
| `Titulos.TextoDeUnidades` | script.js:80-92 | any run of letter spans, one per character, reads as the substituted text |
| `Titulos.AtrasoCrescente` | script.js:95 | `i*0.06 + r*0.03 < j*0.06 + r'*0.03` for `i < j` and random numbers in [0, 1) |
| `Titulos.AtrasosCrescentes` | script.js:94-95 | every unit gets a delay, and the delays increase strictly with the unit's index |
| `Titulos.CriarLetra` | script.js:82-91 | the span for a character has class `letra`, and its text is the character, or U+00A0 for a space |
| `Titulos.AnimarTitulo` | script.js:76-98 | the heading's children become exactly `Letreiro(trim(old text), rs)`: the cleared heading refilled with one span per character, span idx delayed by `idx*0.06 + rs[idx]*0.03` |
| `Titulos.AnimarTitulos` | script.js:72-99 | every marked heading is rebuilt that way from its own prior text, independently of the others |
| `Formulario.ValorOuVazio` | script.js:125-128 | a field's value is kept when it has one, and reads as the empty string when it has none |
| `Formulario.CliqueMailto` | script.js:118-133 | no handler without the form or the button; with both, a missing field raises an error and no navigation; otherwise the browser is sent to the composed link |
| `Formulario.SemValorComoVazio` | script.js:125-128 | a field without a value leads to the same outcome as an empty field |
| `Formulario.DestinatarioSemInterrogacao` | script.js:131 | helper lemma for `LerComporMailto`: the fixed recipient contains no `?`, so the first `?` of the link ends it |
| `Formulario.ComporMailtoAgrupado` | script.js:131 | helper lemma for `LerComporMailto`: the link template regroups as `mailto:` + recipient + `?` + `subject=…` + `&` + `body=…` |
| `Formulario.LerComporMailto` | script.js:129-131 | splitting the link at its first `?` and first `&` gives back the recipient `professorclaudiosilva@ifpa.edu.br`, `enc("Contato - Espaço Memória: " + nome)` and `enc("Nome: "+nome+"\nE-mail: "+email+"\nTelefone: "+telefone+"\n\nMensagem:\n"+mensagem)`, if the encoded subject holds no `&` |
| `Formulario.MailtoDeterminaCampos` | script.js:129-131 | with an injective encoding that escapes `&`, equal links come from the same name and the same body |

## Left out

- Element lookup (`getElementById`, `querySelector`, `querySelectorAll`) is left out. Presence and absence of the anchors are parameters: `null` containers, `navPresente`, `formPresente`, `botaoPresente`, `Campo.SemElemento`.
- `addEventListener` is left out. Handlers are methods called once per event.
- `stopPropagation` (script.js:54) is left out. Button clicks simply never call the document handler.
- The serialisation and re-parsing done by `innerHTML +=` (script.js:43) is left out. Only its effect is kept, the content concatenated with itself; the loss of node identity and listeners is not modelled.
- The fragment of `montarTiraFilme` is a local sequence. Appending a fragment moves its children, which is modelled as sequence concatenation.
- The CSS animation text (`entrarLetra`, 0.85s, the easing curve) is left out; only the delay is kept, as a `real`. Floating-point rounding of the delay and its printing into the style string are not modelled.
- `Math.random()` is a sequence of parameters. The delay ordering lemma assumes each lies in [0, 1), as the language guarantees.
- `Titulos.AnimarTitulo`: units are Unicode scalar values. The source indexes UTF-16 code units, so `texto.length` and the letter loop split a character beyond U+FFFF into two spans, where the model has one unit.
- `Titulos.AnimarTitulo`: the `letras` array and the heading's children are the same objects in the source. The model updates the child at the same index instead of sharing.
- `encodeURIComponent` is the function parameter `enc`; its UTF-8 percent-encoding is not modelled.
- `Formulario.CliqueMailto`: strings are Unicode scalar values, so a field holding an unpaired UTF-16 surrogate cannot be written. On such a field `encodeURIComponent` (script.js:129-130) throws URIError and nothing navigates; the model has no such outcome and always navigates when all four fields exist.
- `Formulario.LerComporMailto`: it requires that the encoded subject hold no `&`. `encodeURIComponent` guarantees this, but the model does not define that function.
- The assignment to `window.location.href` (script.js:131) is left out. The model returns the target URI as `Efeito.Navegar`.
- The form's `submit` listener (script.js:135-137) has an empty body, so there is nothing to model.
- `Dom.CriarElemento`: tag and attribute names are kept verbatim. In an HTML document `createElement` and `setAttribute` (script.js:14, 18) lowercase ASCII letters in the name and throw InvalidCharacterError on a name that is not an XML Name; neither is modelled. Every call in `script.js` passes lowercase valid names (`div`, `img`, `span`; `class`, `text`, `src`, `alt`), so no call site is affected.
- The constructed elements' other DOM state (styles other than the animation delay, namespaces, live collections) is not modelled.
