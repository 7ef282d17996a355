/** The film strip (`montarTiraFilme`) and the archive gallery
    (`popularAcervo`): both append one frame per image, numbered from 1,
    each frame a `div` wrapping one `img`. The strip then doubles its whole
    content so that its scrolling animation can wrap at the midpoint. */
module Galeria {
  import opened Dom
  import opened Numeros

  /** The directory the images are served from. */
  const Caminho := "imagens/"
  /** The number of images the page passes to both routines. */
  const TotalImagens: nat := 135
  const TotalImagensAcervo: nat := 135

  /** The path of image `i`. */
  function Foto(i: nat): string
  {
    Caminho + "foto" + Decimal(i) + ".jpg"
  }

  /** The frame for image `i`: a `div` of class `classe` wrapping an `img`
      whose alt text is `rotulo` followed by `i`. */
  function Moldura(classe: string, rotulo: string, i: nat): No
  {
    Elem("div", classe, map[], [Elem("img", "", map["src" := Foto(i), "alt" := rotulo + Decimal(i)], [], None)], None)
  }

  /** The frames for images 1 to n, in ascending order. */
  function Molduras(classe: string, rotulo: string, n: nat): seq<No>
  {
    if n == 0 then [] else Molduras(classe, rotulo, n - 1) + [Moldura(classe, rotulo, n)]
  }

  /** There are exactly `n` frames, and the one at position `k` shows image `k + 1`. */
  lemma {:induction false} MoldurasEm(classe: string, rotulo: string, n: nat)
    ensures |Molduras(classe, rotulo, n)| == n
    ensures forall k :: 0 <= k < n ==> Molduras(classe, rotulo, n)[k] == Moldura(classe, rotulo, k + 1)
  {
    if n > 0 {
      MoldurasEm(classe, rotulo, n - 1);
    }
  }

  /** The source of an image determines the number in it. */
  lemma FotoDeterminaNumero(i: nat, j: nat)
    ensures Foto(i) == Foto(j) ==> Decimal(i) == Decimal(j)
  {
    if Foto(i) == Foto(j) {
      var a, b := Decimal(i), Decimal(j);
      assert |a| == |b|;
      forall k | 0 <= k < |a| ensures a[k] == b[k] {
        assert a[k] == Foto(i)[|Caminho + "foto"| + k];
        assert b[k] == Foto(j)[|Caminho + "foto"| + k];
      }
    }
  }

  /** Frames of distinct images differ: their sources differ. */
  lemma MolduraInjetiva(classe: string, rotulo: string, i: nat, j: nat)
    requires i != j
    ensures Moldura(classe, rotulo, i) != Moldura(classe, rotulo, j)
    ensures Foto(i) != Foto(j)
  {
    FotoDeterminaNumero(i, j);
    DecimalInjetivo(i, j);
    var mi, mj := Moldura(classe, rotulo, i), Moldura(classe, rotulo, j);
    assert mi.filhos[0].atributos["src"] == Foto(i);
    assert mj.filhos[0].atributos["src"] == Foto(j);
  }

  /** No image appears twice among the frames. */
  lemma MoldurasDistintas(classe: string, rotulo: string, n: nat)
    ensures forall a, b :: 0 <= a < b < |Molduras(classe, rotulo, n)| ==>
      Molduras(classe, rotulo, n)[a] != Molduras(classe, rotulo, n)[b]
  {
    MoldurasEm(classe, rotulo, n);
    forall a, b | 0 <= a < b < n
      ensures Molduras(classe, rotulo, n)[a] != Molduras(classe, rotulo, n)[b]
    {
      MolduraInjetiva(classe, rotulo, a + 1, b + 1);
    }
  }

  /** The two `criarElemento` calls and the `appendChild` of one loop iteration. */
  method CriarMoldura(classe: string, rotulo: string, i: nat) returns (m: No)
    ensures m == Moldura(classe, rotulo, i)
  {
    m := CriarElemento("div", map["class" := classe]);
    assert m.atributos == map[];
    var img := CriarElemento("img", map["src" := Foto(i), "alt" := rotulo + Decimal(i)]);
    assert img.atributos == map["src" := Foto(i), "alt" := rotulo + Decimal(i)];
    m := AnexarFilho(m, img);
  }

  /** `montarTiraFilme` with `total` images: when the strip is present, the
      frames 1..total are built in a fragment, appended after what the strip
      held, and then the whole content is appended once more. When the strip
      is absent nothing can change (the method modifies only the strip). */
  method MontarTiraFilme(trilho: Conteiner?, total: nat)
    modifies trilho
    ensures trilho != null ==>
      var c := old(trilho.filhos) + Molduras("quadro", "Registro ", total);
      && trilho.filhos == c + c
      && |trilho.filhos| == 2 * |c|
      && trilho.filhos[..|c|] == c
      && trilho.filhos[|c|..] == c
  {
    if trilho == null {
      return;
    }
    var fragmento: seq<No> := [];
    var i := 1;
    while i <= total
      invariant 1 <= i <= total + 1
      invariant fragmento == Molduras("quadro", "Registro ", i - 1)
      invariant trilho.filhos == old(trilho.filhos)
    {
      var quadro := CriarMoldura("quadro", "Registro ", i);
      fragmento := fragmento + [quadro];
      i := i + 1;
    }
    trilho.filhos := trilho.filhos + fragmento;
    // the content is serialised and parsed again; only its effect is kept
    trilho.filhos := trilho.filhos + trilho.filhos;
  }

  /** `popularAcervo` with `total` images: when the gallery is present, the
      cards 1..total are appended after what it held, one at a time, and
      nothing is duplicated. */
  method PopularAcervo(galeria: Conteiner?, total: nat)
    modifies galeria
    ensures galeria != null ==>
      && galeria.filhos == old(galeria.filhos) + Molduras("card-acervo", "Acervo ", total)
      && |galeria.filhos| == |old(galeria.filhos)| + total
  {
    if galeria == null {
      return;
    }
    var i := 1;
    while i <= total
      invariant 1 <= i <= total + 1
      invariant galeria.filhos == old(galeria.filhos) + Molduras("card-acervo", "Acervo ", i - 1)
    {
      var card := CriarMoldura("card-acervo", "Acervo ", i);
      galeria.filhos := galeria.filhos + [card];
      i := i + 1;
    }
    MoldurasEm("card-acervo", "Acervo ", total);
  }

  /** The strip as the page builds it: 135 images. */
  method MontarTiraFilmePagina(trilho: Conteiner?)
    modifies trilho
    ensures trilho != null ==>
      var c := old(trilho.filhos) + Molduras("quadro", "Registro ", TotalImagens);
      trilho.filhos == c + c && |trilho.filhos| == 2 * |old(trilho.filhos)| + 270
  {
    MontarTiraFilme(trilho, TotalImagens);
    MoldurasEm("quadro", "Registro ", TotalImagens);
  }

  /** The gallery as the page builds it: 135 images. */
  method PopularAcervoPagina(galeria: Conteiner?)
    modifies galeria
    ensures galeria != null ==>
      galeria.filhos == old(galeria.filhos) + Molduras("card-acervo", "Acervo ", TotalImagensAcervo)
      && |galeria.filhos| == |old(galeria.filhos)| + 135
  {
    PopularAcervo(galeria, TotalImagensAcervo);
  }
}
