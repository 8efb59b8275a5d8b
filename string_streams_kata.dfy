/**
 * `StringStreamsKata`: normalisation queries over three fixed lists of
 * strings. Every query is one `stream()` pipeline; here each is a function of
 * the list it reads, the class's own lists are the constants below, and what
 * each query returns is stated and proved in the lemma that follows it.
 */
module StringStreamsKata {
  import opened JavaStrings
  import opened Streams

  /** The field `paises`. */
  const Paises: seq<string> := ["Italia", "España", "Portugal", "Irlanda", "Noruega", "Francia"]

  /** The field `usuarios`. */
  const Usuarios: seq<string> := ["  noa  ", "LEO", "ana", "Noa", "   Leo ", "mario", "ANA"]

  /** The field `tokens`. */
  const Tokens: seq<string> := [
    "Hoy", "toca", "#java", "y", "#streams",
    "Me", "flipa", "#dam", "#java",
    "Probando", "#Streams", "#JAVA", "#java",
    "sin", "hashtags", "aquí",
    "#dam", "#fp", "#java"
  ]

  /** `p.endsWith("a")`. */
  predicate EndsInA(p: string) {
    EndsWith(p, "a")
  }

  /** `t.startsWith("#")`. */
  predicate IsHashtag(t: string) {
    StartsWith(t, "#")
  }

  /** The strings some element of `s` lower-cases to. */
  predicate LowerOfSome(s: seq<string>, x: string) {
    exists i :: 0 <= i < |s| && ToLower(s[i]) == x
  }

  /** A string is in `Map(s, ToLower)` exactly when it lower-cases from an element of `s`. */
  lemma {:induction false} MapToLowerElements(s: seq<string>, x: string)
    ensures x in Map(s, ToLower) <==> LowerOfSome(s, x)
  {
    var lowered := Map(s, ToLower);
    if LowerOfSome(s, x) {
      var i :| 0 <= i < |s| && ToLower(s[i]) == x;
      assert lowered[i] == x;
    }
  }

  // ---------------------------------------------------------------------
  // paisesQueTerminanEnA: filter(endsWith "a") -> sorted()
  // ---------------------------------------------------------------------

  function PaisesQueTerminanEnA(paises: seq<string>): seq<string> {
    Sort(Filter(paises, EndsInA))
  }

  /**
   * The countries that end in `a`, each as often as it is listed, in
   * ascending order (the pipeline sorts; it does not keep the list order).
   */
  lemma PaisesQueTerminanEnASpec(paises: seq<string>)
    ensures var r := PaisesQueTerminanEnA(paises);
      && Sorted(r)
      && (forall p :: p in r ==> EndsInA(p))
      && (forall p :: multiset(r)[p] == if EndsInA(p) then multiset(paises)[p] else 0)
  {
    var kept := Filter(paises, EndsInA);
    FilterSpec(paises, EndsInA);
    SortSpec(kept);
    forall p | p in PaisesQueTerminanEnA(paises) ensures EndsInA(p) {
      assert p in multiset(kept);
    }
  }

  // ---------------------------------------------------------------------
  // paisesQueTerminanEnAOrdenados: distinct() -> map(toLowerCase) -> sorted()
  // ---------------------------------------------------------------------

  function PaisesQueTerminanEnAOrdenados(paises: seq<string>): seq<string> {
    Sort(Map(Distinct(paises), ToLower))
  }

  /**
   * Despite its name, every country: duplicates are dropped by exact value
   * first, then each survivor is lower-cased and the result sorted, so there
   * is one entry per distinct spelling, and two countries that differ only
   * in case both remain.
   */
  lemma PaisesQueTerminanEnAOrdenadosSpec(paises: seq<string>)
    ensures var r := PaisesQueTerminanEnAOrdenados(paises);
      && Sorted(r)
      && |r| == |Distinct(paises)|
      && (forall x :: x in r ==> IsLower(x))
      && (forall x :: x in r <==> LowerOfSome(paises, x))
      && (forall x :: multiset(r)[x] == |set p | p in paises && ToLower(p) == x|)
  {
    var unique := Distinct(paises);
    var lowered := Map(unique, ToLower);
    var r := Sort(lowered);
    SortSpec(lowered);
    forall x ensures multiset(r)[x] == |set p | p in paises && ToLower(p) == x| {
      LowerCaseVariantsCount(paises, x);
    }
    DistinctSpec(paises);
    assert |r| == |multiset(r)| == |multiset(lowered)| == |lowered|;
    forall x ensures x in r <==> LowerOfSome(paises, x) {
      SortElements(lowered, x);
      MapToLowerElements(unique, x);
      if LowerOfSome(unique, x) {
        var k :| 0 <= k < |unique| && ToLower(unique[k]) == x;
        assert unique[k] in paises;
      }
      if LowerOfSome(paises, x) {
        var i :| 0 <= i < |paises| && ToLower(paises[i]) == x;
        assert paises[i] in unique;
      }
    }
  }

  /** After `distinct()` and lower-casing, `x` is listed once per different spelling of it. */
  lemma LowerCaseVariantsCount(paises: seq<string>, x: string)
    ensures multiset(Map(Distinct(paises), ToLower))[x] == |set p | p in paises && ToLower(p) == x|
  {
    var unique := Distinct(paises);
    DistinctSpec(paises);
    MapCountsUnique(unique, ToLower, x);
    assert Preimage(unique, ToLower, x) == (set p | p in paises && ToLower(p) == x);
  }

  // ---------------------------------------------------------------------
  // paisesMinusculasUnicosOrdenados: map(toLowerCase) -> distinct() -> sorted()
  // ---------------------------------------------------------------------

  function PaisesMinusculasUnicosOrdenados(paises: seq<string>): seq<string> {
    Sort(Distinct(Map(paises, ToLower)))
  }

  /** The lower-cased forms of the countries, once each, in ascending order. */
  lemma PaisesMinusculasUnicosOrdenadosSpec(paises: seq<string>)
    ensures var r := PaisesMinusculasUnicosOrdenados(paises);
      && Sorted(r)
      && NoDuplicates(r)
      && (forall x :: x in r ==> IsLower(x))
      && (forall x :: x in r <==> LowerOfSome(paises, x))
  {
    var lowered := Map(paises, ToLower);
    var unique := Distinct(lowered);
    DistinctSpec(lowered);
    SortSpec(unique);
    SortNoDuplicates(unique);
    forall x ensures x in Sort(unique) <==> LowerOfSome(paises, x) {
      SortElements(unique, x);
      MapToLowerElements(paises, x);
    }
  }

  /**
   * The result is the only ascending, duplicate-free listing of the
   * lower-cased countries.
   */
  lemma PaisesMinusculasUnicosOrdenadosIsCanonical(paises: seq<string>, t: seq<string>)
    requires Sorted(t) && NoDuplicates(t)
    requires forall x :: x in t <==> LowerOfSome(paises, x)
    ensures t == PaisesMinusculasUnicosOrdenados(paises)
  {
    PaisesMinusculasUnicosOrdenadosSpec(paises);
    SortedSetUnique(t, PaisesMinusculasUnicosOrdenados(paises));
  }

  /**
   * Running `distinct()` before or after lower-casing makes a difference
   * once two countries differ only in case.
   */
  lemma DistinctBeforeLowerKeepsCaseVariants()
    ensures PaisesQueTerminanEnAOrdenados(["Chile", "CHILE"]) == ["chile", "chile"]
    ensures PaisesMinusculasUnicosOrdenados(["Chile", "CHILE"]) == ["chile"]
  {
    ChileEnMinusculas();
    DistinctOfUnique(["Chile", "CHILE"]);
    ChileOrdenado();
    ChileSinRepetir();
  }

  lemma ChileEnMinusculas()
    ensures Map(["Chile", "CHILE"], ToLower) == ["chile", "chile"]
  {
    assert ToLower("Chile") == "chile";
    assert ToLower("CHILE") == "chile";
  }

  lemma ChileOrdenado()
    ensures Sort(["chile", "chile"]) == ["chile", "chile"]
    ensures Sort(["chile"]) == ["chile"]
  {
    CompareToZeroIffEqual("chile", "chile");
  }

  lemma ChileSinRepetir()
    ensures Distinct(["chile", "chile"]) == ["chile"]
  {
    assert ["chile", "chile"][..1] == ["chile"];
    assert ["chile"][..0] == [];
  }

  // ---------------------------------------------------------------------
  // usuariosNormalizadosSinRepetir: map(trim) -> map(toLowerCase) -> distinct()
  // ---------------------------------------------------------------------

  /** Each handle trimmed, then lower-cased, in list order. */
  function Normalizados(usuarios: seq<string>): (r: seq<string>)
    ensures |r| == |usuarios|
    ensures forall i :: 0 <= i < |usuarios| ==> r[i] == ToLower(Trim(usuarios[i]))
  {
    Map(Map(usuarios, Trim), ToLower)
  }

  function UsuariosNormalizadosSinRepetir(usuarios: seq<string>): seq<string> {
    Distinct(Normalizados(usuarios))
  }

  /**
   * A trimmed, lower-cased handle is its own normal form: it has no upper-case
   * letter and no blank at either end.
   */
  lemma NormalFormIsFixed(u: string)
    ensures var x := ToLower(Trim(u));
      IsLower(x) && Trim(x) == x && ToLower(Trim(x)) == x
  {
    var t := Trim(u);
    var x := ToLower(t);
    if x != [] {
      assert x[0] == LowerChar(t[0]) && x[|x| - 1] == LowerChar(t[|t| - 1]);
    }
    TrimOfTrimmed(x);
    ToLowerIdempotent(t);
  }

  /** The handles that normalise to `x`. */
  predicate NormalisesTo(usuarios: seq<string>, x: string) {
    exists i :: 0 <= i < |usuarios| && ToLower(Trim(usuarios[i])) == x
  }

  /**
   * The normalised handles, once each, in the order in which each first
   * appears after normalisation; every entry is already in normal form.
   */
  lemma UsuariosNormalizadosSinRepetirSpec(usuarios: seq<string>)
    ensures var r := UsuariosNormalizadosSinRepetir(usuarios);
      && NoDuplicates(r)
      && (forall x :: x in r <==> NormalisesTo(usuarios, x))
      && (forall x :: x in r ==> IsLower(x) && Trim(x) == x)
      && InFirstAppearanceOrder(r, Normalizados(usuarios))
  {
    var n := Normalizados(usuarios);
    var r := Distinct(n);
    DistinctKeepsFirstAppearance(n);
    forall x ensures x in n <==> NormalisesTo(usuarios, x) {
      if NormalisesTo(usuarios, x) {
        var i :| 0 <= i < |usuarios| && ToLower(Trim(usuarios[i])) == x;
        assert n[i] == x;
      }
    }
    forall x | x in r ensures IsLower(x) && Trim(x) == x {
      var i :| 0 <= i < |usuarios| && n[i] == x;
      NormalFormIsFixed(usuarios[i]);
    }
  }

  // ---------------------------------------------------------------------
  // hashtagsUnicosOrdenados:
  //   map(trim) -> filter(startsWith "#") -> map(toLowerCase) -> distinct() -> sorted()
  // ---------------------------------------------------------------------

  /** The pipeline up to, and including, `map(toLowerCase)`. */
  function HashtagsEnMinusculas(tokens: seq<string>): seq<string> {
    Map(Filter(Map(tokens, Trim), IsHashtag), ToLower)
  }

  function HashtagsUnicosOrdenados(tokens: seq<string>): seq<string> {
    Sort(Distinct(HashtagsEnMinusculas(tokens)))
  }

  /** Lower-casing leaves a leading `#` where it is. */
  lemma LowerKeepsHash(t: string)
    ensures IsHashtag(ToLower(t)) <==> IsHashtag(t)
  {
    StartsWithChar(t, '#');
    StartsWithChar(ToLower(t), '#');
  }

  /** A token whose trimmed form starts with `#`. */
  predicate TrimsToHashtag(tokens: seq<string>, x: string) {
    exists i :: 0 <= i < |tokens| && IsHashtag(Trim(tokens[i])) && ToLower(Trim(tokens[i])) == x
  }

  /**
   * A lower-cased hashtag is produced exactly by the tokens whose trimmed
   * form starts with `#`.
   */
  lemma HashtagsEnMinusculasElements(tokens: seq<string>, x: string)
    ensures x in HashtagsEnMinusculas(tokens) <==> TrimsToHashtag(tokens, x)
  {
    if x in HashtagsEnMinusculas(tokens) {
      HashtagFromSomeToken(tokens, x);
    }
    if TrimsToHashtag(tokens, x) {
      HashtagOfSomeToken(tokens, x);
    }
  }

  lemma HashtagFromSomeToken(tokens: seq<string>, x: string)
    requires x in HashtagsEnMinusculas(tokens)
    ensures TrimsToHashtag(tokens, x)
  {
    var trimmed := Map(tokens, Trim);
    var tags := Filter(trimmed, IsHashtag);
    MapToLowerElements(tags, x);
    var k :| 0 <= k < |tags| && ToLower(tags[k]) == x;
    FilterElements(trimmed, IsHashtag, tags[k]);
    var i :| 0 <= i < |trimmed| && trimmed[i] == tags[k];
    assert IsHashtag(Trim(tokens[i])) && ToLower(Trim(tokens[i])) == x;
  }

  lemma HashtagOfSomeToken(tokens: seq<string>, x: string)
    requires TrimsToHashtag(tokens, x)
    ensures x in HashtagsEnMinusculas(tokens)
  {
    var trimmed := Map(tokens, Trim);
    var tags := Filter(trimmed, IsHashtag);
    var i :| 0 <= i < |tokens| && IsHashtag(Trim(tokens[i])) && ToLower(Trim(tokens[i])) == x;
    assert trimmed[i] == Trim(tokens[i]);
    FilterElements(trimmed, IsHashtag, trimmed[i]);
    MapToLowerElements(tags, x);
    var k :| 0 <= k < |tags| && tags[k] == trimmed[i];
    assert LowerOfSome(tags, x);
  }

  /**
   * The hashtags among the tokens, trimmed and lower-cased, once each, in
   * ascending order. A token is a hashtag when its trimmed form starts
   * with `#`.
   */
  lemma HashtagsUnicosOrdenadosSpec(tokens: seq<string>)
    ensures var r := HashtagsUnicosOrdenados(tokens);
      && Sorted(r)
      && NoDuplicates(r)
      && (forall x :: x in r ==> IsLower(x) && IsHashtag(x))
      && (forall x :: x in r <==> TrimsToHashtag(tokens, x))
  {
    var lowered := HashtagsEnMinusculas(tokens);
    var unique := Distinct(lowered);
    var r := Sort(unique);
    DistinctSpec(lowered);
    SortSpec(unique);
    SortNoDuplicates(unique);
    forall x ensures x in r <==> TrimsToHashtag(tokens, x) {
      SortElements(unique, x);
      HashtagsEnMinusculasElements(tokens, x);
    }
    forall x | x in r ensures IsLower(x) && IsHashtag(x) {
      var i :| 0 <= i < |tokens| && IsHashtag(Trim(tokens[i])) && ToLower(Trim(tokens[i])) == x;
      LowerKeepsHash(Trim(tokens[i]));
    }
  }

  /**
   * A token contributes to the hashtags if and only if its trimmed form
   * starts with `#`: blanks in front of the `#` do not hide it, because
   * `trim` runs before the filter.
   */
  lemma TokenContributesIffTrimmedIsHashtag(tokens: seq<string>, i: nat)
    requires i < |tokens|
    ensures ToLower(Trim(tokens[i])) in HashtagsUnicosOrdenados(tokens) <==> IsHashtag(Trim(tokens[i]))
  {
    var x := ToLower(Trim(tokens[i]));
    HashtagsUnicosOrdenadosSpec(tokens);
    if x in HashtagsUnicosOrdenados(tokens) {
      LowerKeepsHash(Trim(tokens[i]));
    }
  }

  // ---------------------------------------------------------------------
  // The values on the class's own lists
  // ---------------------------------------------------------------------
  // Each list is taken a few literals and one pipeline stage at a time, one
  // lemma per piece, so that every proof stays small; the lemmas for the
  // whole lists put the pieces together.

  lemma PaisesEnDosMitades()
    ensures Paises == ["Italia", "España", "Portugal"] + ["Irlanda", "Noruega", "Francia"]
  {
  }

  lemma PrimerosPaisesEnA()
    ensures Filter(["Italia", "España", "Portugal"], EndsInA) == ["Italia", "España"]
  {
    EndsWithChar("Italia", 'a');
    EndsWithChar("España", 'a');
    EndsWithChar("Portugal", 'a');
  }

  lemma UltimosPaisesEnA()
    ensures Filter(["Irlanda", "Noruega", "Francia"], EndsInA) == ["Irlanda", "Noruega", "Francia"]
  {
    EndsWithChar("Irlanda", 'a');
    EndsWithChar("Noruega", 'a');
    EndsWithChar("Francia", 'a');
  }

  /** The countries that end in `a`, in list order: all but Portugal. */
  lemma PaisesEnA()
    ensures Filter(Paises, EndsInA) == ["Italia", "España"] + ["Irlanda", "Noruega", "Francia"]
  {
    PaisesEnDosMitades();
    PrimerosPaisesEnA();
    UltimosPaisesEnA();
    FilterAppend(["Italia", "España", "Portugal"], ["Irlanda", "Noruega", "Francia"], EndsInA);
  }

  lemma PaisesEnAOrdenadosSorted()
    ensures Sorted(["España", "Francia", "Irlanda", "Italia", "Noruega"])
  {
    assert LessEq("España", "Francia") && LessEq("Francia", "Irlanda");
    assert LessEq("Irlanda", "Italia") && LessEq("Italia", "Noruega");
    SortedFromNeighbours(["España", "Francia", "Irlanda", "Italia", "Noruega"]);
  }

  lemma PaisesEnAMismosElementos()
    ensures multiset(["Italia", "España"] + ["Irlanda", "Noruega", "Francia"])
      == multiset(["España", "Francia", "Irlanda", "Italia", "Noruega"])
  {
  }

  lemma PaisesQueTerminanEnASeed()
    ensures PaisesQueTerminanEnA(Paises) == ["España", "Francia", "Irlanda", "Italia", "Noruega"]
  {
    PaisesEnA();
    PaisesEnAOrdenadosSorted();
    PaisesEnAMismosElementos();
    SortIs(["Italia", "España"] + ["Irlanda", "Noruega", "Francia"], ["España", "Francia", "Irlanda", "Italia", "Noruega"]);
  }

  lemma PaisesDistintos()
    ensures NoDuplicates(Paises)
  {
  }

  lemma PrimerosPaisesEnMinusculas()
    ensures Map(["Italia", "España", "Portugal"], ToLower) == ["italia", "españa", "portugal"]
  {
    assert ToLower("Italia") == "italia";
    assert ToLower("España") == "españa";
    assert ToLower("Portugal") == "portugal";
  }

  lemma UltimosPaisesEnMinusculas()
    ensures Map(["Irlanda", "Noruega", "Francia"], ToLower) == ["irlanda", "noruega", "francia"]
  {
    assert ToLower("Irlanda") == "irlanda";
    assert ToLower("Noruega") == "noruega";
    assert ToLower("Francia") == "francia";
  }

  /** The countries lower-cased, in list order. */
  lemma PaisesEnMinusculas()
    ensures Map(Paises, ToLower) == ["italia", "españa", "portugal"] + ["irlanda", "noruega", "francia"]
  {
    PaisesEnDosMitades();
    PrimerosPaisesEnMinusculas();
    UltimosPaisesEnMinusculas();
    MapAppend(["Italia", "España", "Portugal"], ["Irlanda", "Noruega", "Francia"], ToLower);
  }

  lemma MinusculasDistintas()
    ensures NoDuplicates(["italia", "españa", "portugal"] + ["irlanda", "noruega", "francia"])
  {
  }

  lemma PaisesEnMinusculasSorted()
    ensures Sorted(["españa", "francia", "irlanda", "italia", "noruega", "portugal"])
  {
    assert LessEq("españa", "francia") && LessEq("francia", "irlanda");
    assert LessEq("irlanda", "italia") && LessEq("italia", "noruega");
    assert LessEq("noruega", "portugal");
    SortedFromNeighbours(["españa", "francia", "irlanda", "italia", "noruega", "portugal"]);
  }

  lemma MinusculasMismosElementos()
    ensures multiset(["italia", "españa", "portugal"] + ["irlanda", "noruega", "francia"])
      == multiset(["españa", "francia", "irlanda", "italia", "noruega", "portugal"])
  {
  }

  /** The sorting step shared by the two lower-casing queries. */
  lemma PaisesEnMinusculasOrdenados()
    ensures Sort(["italia", "españa", "portugal"] + ["irlanda", "noruega", "francia"])
      == ["españa", "francia", "irlanda", "italia", "noruega", "portugal"]
  {
    PaisesEnMinusculasSorted();
    MinusculasMismosElementos();
    SortIs(["italia", "españa", "portugal"] + ["irlanda", "noruega", "francia"],
      ["españa", "francia", "irlanda", "italia", "noruega", "portugal"]);
  }

  lemma PaisesQueTerminanEnAOrdenadosSeed()
    ensures PaisesQueTerminanEnAOrdenados(Paises)
      == ["españa", "francia", "irlanda", "italia", "noruega", "portugal"]
  {
    PaisesDistintos();
    DistinctOfUnique(Paises);
    PaisesEnMinusculas();
    PaisesEnMinusculasOrdenados();
  }

  lemma PaisesMinusculasUnicosOrdenadosSeed()
    ensures PaisesMinusculasUnicosOrdenados(Paises)
      == ["españa", "francia", "irlanda", "italia", "noruega", "portugal"]
  {
    PaisesEnMinusculas();
    MinusculasDistintas();
    DistinctOfUnique(Map(Paises, ToLower));
    PaisesEnMinusculasOrdenados();
  }

  /** Normalising a concatenation normalises each part. */
  lemma NormalizadosAppend(a: seq<string>, b: seq<string>)
    ensures Normalizados(a + b) == Normalizados(a) + Normalizados(b)
  {
  }

  /** `trim()` on the one handle padded on both sides. */
  lemma TrimNoa()
    ensures Trim("  noa  ") == "noa"
  {
    var s := "  noa  ";
    assert TrimStart(s[2..]) == 0;
    assert TrimStart(s) == 2;
    assert TrimEnd(s[..5], 2) == 5;
    assert TrimEnd(s, 2) == 5;
  }

  lemma TrimLeo()
    ensures Trim("   Leo ") == "Leo"
  {
    var s := "   Leo ";
    assert TrimStart(s[3..]) == 0;
    assert TrimStart(s) == 3;
    assert TrimEnd(s[..6], 3) == 6;
    assert TrimEnd(s, 3) == 6;
  }

  lemma UsuariosEnTrozos()
    ensures Usuarios == ["  noa  ", "LEO"] + ["ana", "Noa"] + ["   Leo ", "mario"] + ["ANA"]
  {
  }

  lemma SinEspaciosNoaLeo()
    ensures Map(["  noa  ", "LEO"], Trim) == ["noa", "LEO"]
  {
    TrimNoa();
    TrimOfTrimmed("LEO");
  }

  lemma EnMinusculasNoaLeo()
    ensures Map(["noa", "LEO"], ToLower) == ["noa", "leo"]
  {
    assert ToLower("noa") == "noa";
    assert ToLower("LEO") == "leo";
  }

  lemma NormalizadosNoaLeo()
    ensures Normalizados(["  noa  ", "LEO"]) == ["noa", "leo"]
  {
    SinEspaciosNoaLeo();
    EnMinusculasNoaLeo();
  }

  lemma SinEspaciosAnaNoa()
    ensures Map(["ana", "Noa"], Trim) == ["ana", "Noa"]
  {
    TrimOfTrimmed("ana");
    TrimOfTrimmed("Noa");
  }

  lemma EnMinusculasAnaNoa()
    ensures Map(["ana", "Noa"], ToLower) == ["ana", "noa"]
  {
    assert ToLower("ana") == "ana";
    assert ToLower("Noa") == "noa";
  }

  lemma NormalizadosAnaNoa()
    ensures Normalizados(["ana", "Noa"]) == ["ana", "noa"]
  {
    SinEspaciosAnaNoa();
    EnMinusculasAnaNoa();
  }

  lemma SinEspaciosLeoMario()
    ensures Map(["   Leo ", "mario"], Trim) == ["Leo", "mario"]
  {
    TrimLeo();
    TrimOfTrimmed("mario");
  }

  lemma EnMinusculasLeoMario()
    ensures Map(["Leo", "mario"], ToLower) == ["leo", "mario"]
  {
    assert ToLower("Leo") == "leo";
    assert ToLower("mario") == "mario";
  }

  lemma NormalizadosLeoMario()
    ensures Normalizados(["   Leo ", "mario"]) == ["leo", "mario"]
  {
    SinEspaciosLeoMario();
    EnMinusculasLeoMario();
  }

  lemma SinEspaciosAna()
    ensures Map(["ANA"], Trim) == ["ANA"]
  {
    TrimOfTrimmed("ANA");
  }

  lemma EnMinusculasAna()
    ensures Map(["ANA"], ToLower) == ["ana"]
  {
    assert ToLower("ANA") == "ana";
  }

  lemma NormalizadosAna()
    ensures Normalizados(["ANA"]) == ["ana"]
  {
    SinEspaciosAna();
    EnMinusculasAna();
  }

  lemma NormalizadosJuntos()
    ensures ["noa", "leo"] + ["ana", "noa"] + ["leo", "mario"] + ["ana"]
      == ["noa", "leo", "ana", "noa", "leo", "mario", "ana"]
  {
  }

  /** The handles after `trim` and `toLowerCase`, in list order. */
  lemma UsuariosNormalizados()
    ensures Normalizados(Usuarios) == ["noa", "leo", "ana", "noa", "leo", "mario", "ana"]
  {
    var a, b, c, d := ["  noa  ", "LEO"], ["ana", "Noa"], ["   Leo ", "mario"], ["ANA"];
    UsuariosEnTrozos();
    NormalizadosAppend(a + b + c, d);
    NormalizadosAppend(a + b, c);
    NormalizadosAppend(a, b);
    NormalizadosNoaLeo();
    NormalizadosAnaNoa();
    NormalizadosLeoMario();
    NormalizadosAna();
    NormalizadosJuntos();
  }

  /** `distinct()` on the normalised handles keeps each first appearance. */
  lemma UsuariosSinRepetir()
    ensures Distinct(["noa", "leo", "ana", "noa", "leo", "mario", "ana"]) == ["noa", "leo", "ana", "mario"]
  {
    var s := ["noa", "leo", "ana", "noa", "leo", "mario", "ana"];
    assert Distinct(s[..1]) == ["noa"] by { assert s[..1][..0] == []; }
    assert Distinct(s[..2]) == ["noa", "leo"] by { assert s[..2][..1] == s[..1]; }
    assert Distinct(s[..3]) == ["noa", "leo", "ana"] by { assert s[..3][..2] == s[..2]; }
    assert Distinct(s[..4]) == ["noa", "leo", "ana"] by { assert s[..4][..3] == s[..3]; }
    assert Distinct(s[..5]) == ["noa", "leo", "ana"] by { assert s[..5][..4] == s[..4]; }
    assert Distinct(s[..6]) == ["noa", "leo", "ana", "mario"] by { assert s[..6][..5] == s[..5]; }
    assert s[..7] == s;
    assert s[..7][..6] == s[..6];
  }

  lemma UsuariosNormalizadosSinRepetirSeed()
    ensures UsuariosNormalizadosSinRepetir(Usuarios) == ["noa", "leo", "ana", "mario"]
  {
    UsuariosNormalizados();
    UsuariosSinRepetir();
  }

  /** The pipeline up to `map(toLowerCase)` on a concatenation runs on each part. */
  lemma HashtagsEnMinusculasAppend(a: seq<string>, b: seq<string>)
    ensures HashtagsEnMinusculas(a + b) == HashtagsEnMinusculas(a) + HashtagsEnMinusculas(b)
  {
    MapAppend(a, b, Trim);
    FilterAppend(Map(a, Trim), Map(b, Trim), IsHashtag);
    MapAppend(Filter(Map(a, Trim), IsHashtag), Filter(Map(b, Trim), IsHashtag), ToLower);
  }

  /** The tokens as they are laid out in the source, one line each. */
  lemma TokensPorLineas()
    ensures Tokens
      == ["Hoy", "toca", "#java", "y", "#streams"]
      + ["Me", "flipa", "#dam", "#java"]
      + ["Probando", "#Streams", "#JAVA", "#java"]
      + ["sin", "hashtags", "aquí"]
      + ["#dam", "#fp", "#java"]
  {
  }

  lemma PrimeraLineaSinEspacios()
    ensures Map(["Hoy", "toca", "#java", "y", "#streams"], Trim) == ["Hoy", "toca", "#java", "y", "#streams"]
  {
    TrimOfTrimmed("Hoy");
    TrimOfTrimmed("toca");
    TrimOfTrimmed("#java");
    TrimOfTrimmed("y");
    TrimOfTrimmed("#streams");
  }

  lemma PrimeraLineaHashtags()
    ensures Filter(["Hoy", "toca", "#java", "y", "#streams"], IsHashtag) == ["#java", "#streams"]
  {
    StartsWithChar("Hoy", '#');
    StartsWithChar("toca", '#');
    StartsWithChar("#java", '#');
    StartsWithChar("y", '#');
    StartsWithChar("#streams", '#');
  }

  lemma PrimeraLineaEnMinusculas()
    ensures Map(["#java", "#streams"], ToLower) == ["#java", "#streams"]
  {
    assert ToLower("#java") == "#java";
    assert ToLower("#streams") == "#streams";
  }

  lemma PrimeraLinea()
    ensures HashtagsEnMinusculas(["Hoy", "toca", "#java", "y", "#streams"]) == ["#java", "#streams"]
  {
    PrimeraLineaSinEspacios();
    PrimeraLineaHashtags();
    PrimeraLineaEnMinusculas();
  }

  lemma SegundaLineaSinEspacios()
    ensures Map(["Me", "flipa", "#dam", "#java"], Trim) == ["Me", "flipa", "#dam", "#java"]
  {
    TrimOfTrimmed("Me");
    TrimOfTrimmed("flipa");
    TrimOfTrimmed("#dam");
    TrimOfTrimmed("#java");
  }

  lemma SegundaLineaHashtags()
    ensures Filter(["Me", "flipa", "#dam", "#java"], IsHashtag) == ["#dam", "#java"]
  {
    StartsWithChar("Me", '#');
    StartsWithChar("flipa", '#');
    StartsWithChar("#dam", '#');
    StartsWithChar("#java", '#');
  }

  lemma SegundaLineaEnMinusculas()
    ensures Map(["#dam", "#java"], ToLower) == ["#dam", "#java"]
  {
    assert ToLower("#dam") == "#dam";
    assert ToLower("#java") == "#java";
  }

  lemma SegundaLinea()
    ensures HashtagsEnMinusculas(["Me", "flipa", "#dam", "#java"]) == ["#dam", "#java"]
  {
    SegundaLineaSinEspacios();
    SegundaLineaHashtags();
    SegundaLineaEnMinusculas();
  }

  lemma TerceraLineaSinEspacios()
    ensures Map(["Probando", "#Streams", "#JAVA", "#java"], Trim) == ["Probando", "#Streams", "#JAVA", "#java"]
  {
    TrimOfTrimmed("Probando");
    TrimOfTrimmed("#Streams");
    TrimOfTrimmed("#JAVA");
    TrimOfTrimmed("#java");
  }

  lemma TerceraLineaHashtags()
    ensures Filter(["Probando", "#Streams", "#JAVA", "#java"], IsHashtag) == ["#Streams", "#JAVA", "#java"]
  {
    StartsWithChar("Probando", '#');
    StartsWithChar("#Streams", '#');
    StartsWithChar("#JAVA", '#');
    StartsWithChar("#java", '#');
  }

  lemma TerceraLineaEnMinusculas()
    ensures Map(["#Streams", "#JAVA", "#java"], ToLower) == ["#streams", "#java", "#java"]
  {
    assert ToLower("#Streams") == "#streams";
    assert ToLower("#JAVA") == "#java";
    assert ToLower("#java") == "#java";
  }

  lemma TerceraLinea()
    ensures HashtagsEnMinusculas(["Probando", "#Streams", "#JAVA", "#java"]) == ["#streams", "#java", "#java"]
  {
    TerceraLineaSinEspacios();
    TerceraLineaHashtags();
    TerceraLineaEnMinusculas();
  }

  lemma CuartaLineaSinEspacios()
    ensures Map(["sin", "hashtags", "aquí"], Trim) == ["sin", "hashtags", "aquí"]
  {
    TrimOfTrimmed("sin");
    TrimOfTrimmed("hashtags");
    TrimOfTrimmed("aquí");
  }

  lemma CuartaLineaHashtags()
    ensures Filter(["sin", "hashtags", "aquí"], IsHashtag) == []
  {
    StartsWithChar("sin", '#');
    StartsWithChar("hashtags", '#');
    StartsWithChar("aquí", '#');
  }

  lemma CuartaLinea()
    ensures HashtagsEnMinusculas(["sin", "hashtags", "aquí"]) == []
  {
    CuartaLineaSinEspacios();
    CuartaLineaHashtags();
  }

  lemma QuintaLineaSinEspacios()
    ensures Map(["#dam", "#fp", "#java"], Trim) == ["#dam", "#fp", "#java"]
  {
    TrimOfTrimmed("#dam");
    TrimOfTrimmed("#fp");
    TrimOfTrimmed("#java");
  }

  lemma QuintaLineaHashtags()
    ensures Filter(["#dam", "#fp", "#java"], IsHashtag) == ["#dam", "#fp", "#java"]
  {
    StartsWithChar("#dam", '#');
    StartsWithChar("#fp", '#');
    StartsWithChar("#java", '#');
  }

  lemma QuintaLineaEnMinusculas()
    ensures Map(["#dam", "#fp", "#java"], ToLower) == ["#dam", "#fp", "#java"]
  {
    assert ToLower("#dam") == "#dam";
    assert ToLower("#fp") == "#fp";
    assert ToLower("#java") == "#java";
  }

  lemma QuintaLinea()
    ensures HashtagsEnMinusculas(["#dam", "#fp", "#java"]) == ["#dam", "#fp", "#java"]
  {
    QuintaLineaSinEspacios();
    QuintaLineaHashtags();
    QuintaLineaEnMinusculas();
  }

  /** The hashtags after `map(trim)`, `filter` and `map(toLowerCase)`, line by line. */
  lemma HashtagsDeTokensEnMinusculas()
    ensures HashtagsEnMinusculas(Tokens)
      == ["#java", "#streams"] + ["#dam", "#java"] + ["#streams", "#java", "#java"] + [] + ["#dam", "#fp", "#java"]
  {
    var a := ["Hoy", "toca", "#java", "y", "#streams"];
    var b := ["Me", "flipa", "#dam", "#java"];
    var c := ["Probando", "#Streams", "#JAVA", "#java"];
    var d := ["sin", "hashtags", "aquí"];
    var e := ["#dam", "#fp", "#java"];
    TokensPorLineas();
    HashtagsEnMinusculasAppend(a + b + c + d, e);
    HashtagsEnMinusculasAppend(a + b + c, d);
    HashtagsEnMinusculasAppend(a + b, c);
    HashtagsEnMinusculasAppend(a, b);
    PrimeraLinea();
    SegundaLinea();
    TerceraLinea();
    CuartaLinea();
    QuintaLinea();
  }

  lemma HashtagsEsperadosEnOrden()
    ensures Sorted(["#dam", "#fp", "#java", "#streams"])
  {
    assert LessEq("#dam", "#fp") && LessEq("#fp", "#java") && LessEq("#java", "#streams");
    SortedFromNeighbours(["#dam", "#fp", "#java", "#streams"]);
  }

  lemma HashtagsEsperadosDistintos()
    ensures NoDuplicates(["#dam", "#fp", "#java", "#streams"])
  {
  }

  lemma HashtagsEsperadosSonLosDeTokens(x: string)
    ensures x in ["#dam", "#fp", "#java", "#streams"]
      <==> x in ["#java", "#streams"] + ["#dam", "#java"] + ["#streams", "#java", "#java"] + [] + ["#dam", "#fp", "#java"]
  {
  }

  lemma HashtagsUnicosOrdenadosSeed()
    ensures HashtagsUnicosOrdenados(Tokens) == ["#dam", "#fp", "#java", "#streams"]
  {
    var expected := ["#dam", "#fp", "#java", "#streams"];
    HashtagsDeTokensEnMinusculas();
    HashtagsEsperadosEnOrden();
    HashtagsEsperadosDistintos();
    forall x ensures x in expected <==> x in HashtagsEnMinusculas(Tokens) {
      HashtagsEsperadosSonLosDeTokens(x);
    }
    SortDistinctIs(HashtagsEnMinusculas(Tokens), expected);
  }
}
