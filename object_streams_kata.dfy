/**
 * `ObjectStreamsKata`: queries over a fixed playlist of songs. As in
 * `StringStreamsKata`, each query is a function of the list it reads, the
 * class's own playlist is the constant below, and what each query returns is
 * stated and proved in the lemmas that follow it.
 */
module ObjectStreamsKata {
  import opened JavaStrings
  import opened Streams

  /** Java `int`. */
  const MinInt32: int := -0x8000_0000
  const MaxInt32: int := 0x7fff_ffff
  type Int32 = x: int | -0x8000_0000 <= x <= 0x7fff_ffff

  /**
   * A song as the kata reads it through its getters. `rating` is a number of
   * tenths (4.6 is 46): every rating in the playlist has one decimal.
   * Two songs are equal when all four fields are, which is what `distinct()`
   * relies on.
   */
  datatype Song = Song(title: string, artist: string, seconds: Int32, rating: int)

  function Title(s: Song): string { s.title }
  function Seconds(s: Song): int { s.seconds }
  function Rating(s: Song): int { s.rating }

  /** The field `playlist`; the sixth entry repeats the third on purpose. */
  const Playlist: seq<Song> := [
    Song("Midnight Run", "Noa", 210, 46),
    Song("Campus Life", "Leo", 180, 41),
    Song("Refactor", "Noa", 240, 49),
    Song("Bug Hunter", "Ana", 200, 38),
    Song("Streams Day", "Leo", 195, 47),
    Song("Refactor", "Noa", 240, 49),
    Song("Clean Code", "Ana", 230, 42)
  ]

  /** The threshold 4.5, in tenths. */
  const RecommendedRating: int := 45

  /** `s.getRating() >= 4.5`: the threshold itself is recommended. */
  predicate IsRecommended(s: Song) {
    s.rating >= RecommendedRating
  }

  // ---------------------------------------------------------------------
  // contarRecomendadas: filter(rating >= 4.5) -> count()
  // ---------------------------------------------------------------------

  function ContarRecomendadas(playlist: seq<Song>): nat {
    |Filter(playlist, IsRecommended)|
  }

  /** The count is the number of positions holding a song rated 4.5 or more. */
  lemma ContarRecomendadasSpec(playlist: seq<Song>)
    ensures ContarRecomendadas(playlist) == |IndicesWhere(playlist, IsRecommended)|
    ensures ContarRecomendadas(playlist) <= |playlist|
  {
    FilterCountsPositions(playlist, IsRecommended);
    FilterSpec(playlist, IsRecommended);
  }

  /**
   * Every entry counts on its own: one more song adds one exactly when it is
   * rated 4.5 or more, whether or not an equal song is already listed.
   */
  lemma ContarRecomendadasAppend(playlist: seq<Song>, s: Song)
    ensures ContarRecomendadas(playlist + [s])
      == ContarRecomendadas(playlist) + (if IsRecommended(s) then 1 else 0)
  {
    FilterAppend(playlist, [s], IsRecommended);
    assert [s][1..] == [];
  }

  // ---------------------------------------------------------------------
  // titulosDeArtista: filter(artist equalsIgnoreCase a) -> map(title)
  // ---------------------------------------------------------------------

  /** `p.getArtist().equalsIgnoreCase(artista)`. */
  predicate OfArtist(artista: string, s: Song) {
    EqualsIgnoreCase(s.artist, artista)
  }

  function ByArtist(artista: string): Song -> bool {
    s => OfArtist(artista, s)
  }

  function TitulosDeArtista(playlist: seq<Song>, artista: string): seq<string> {
    Map(Filter(playlist, ByArtist(artista)), Title)
  }

  /** The titles some song by `artista` (ignoring case) has. */
  predicate TitleByArtist(playlist: seq<Song>, artista: string, t: string) {
    exists i :: 0 <= i < |playlist| && OfArtist(artista, playlist[i]) && playlist[i].title == t
  }

  /**
   * One title per song by the artist, repeats included, in playlist order:
   * as many titles as matching positions, drawn in order from the playlist's
   * titles, and exactly the titles of the artist's songs.
   */
  lemma TitulosDeArtistaSpec(playlist: seq<Song>, artista: string)
    ensures var r := TitulosDeArtista(playlist, artista);
      && |r| == |IndicesWhere(playlist, ByArtist(artista))|
      && IsSubsequence(r, Map(playlist, Title))
      && (forall t :: t in r <==> TitleByArtist(playlist, artista, t))
      && (exists kept :: && IsSubsequence(kept, playlist)
                         && (forall s :: multiset(kept)[s] == if OfArtist(artista, s) then multiset(playlist)[s] else 0)
                         && r == Map(kept, Title))
  {
    var kept := Filter(playlist, ByArtist(artista));
    FilterCountsPositions(playlist, ByArtist(artista));
    FilterSpec(playlist, ByArtist(artista));
    SubsequenceMap(kept, playlist, Title);
    forall t ensures t in TitulosDeArtista(playlist, artista) <==> TitleByArtist(playlist, artista, t) {
      if t in TitulosDeArtista(playlist, artista) {
        TitleByArtistFromSong(playlist, artista, t);
      }
      if TitleByArtist(playlist, artista, t) {
        TitleByArtistKept(playlist, artista, t);
      }
    }
  }

  /**
   * The query respects the playlist's order: the titles of a playlist made
   * of two parts are the titles of the first part followed by those of the
   * second.
   */
  lemma TitulosDeArtistaAppend(a: seq<Song>, b: seq<Song>, artista: string)
    ensures TitulosDeArtista(a + b, artista) == TitulosDeArtista(a, artista) + TitulosDeArtista(b, artista)
  {
    FilterAppend(a, b, ByArtist(artista));
    MapAppend(Filter(a, ByArtist(artista)), Filter(b, ByArtist(artista)), Title);
  }

  /** A single song contributes its title exactly when it is by the artist. */
  lemma TitulosDeArtistaOfOne(s: Song, artista: string)
    ensures TitulosDeArtista([s], artista) == if OfArtist(artista, s) then [s.title] else []
  {
    assert [s][1..] == [];
    assert ByArtist(artista)(s) == OfArtist(artista, s);
    assert Filter([s], ByArtist(artista)) == if OfArtist(artista, s) then [s] else [];
    assert Map([s], Title) == [s.title];
  }

  /** A title the query returns is the title of a song by the artist. */
  lemma TitleByArtistFromSong(playlist: seq<Song>, artista: string, t: string)
    requires t in TitulosDeArtista(playlist, artista)
    ensures TitleByArtist(playlist, artista, t)
  {
    var kept := Filter(playlist, ByArtist(artista));
    var k :| 0 <= k < |kept| && Title(kept[k]) == t;
    FilterElements(playlist, ByArtist(artista), kept[k]);
    var i :| 0 <= i < |playlist| && playlist[i] == kept[k];
    assert OfArtist(artista, playlist[i]);
  }

  /** The title of every song by the artist is returned. */
  lemma TitleByArtistKept(playlist: seq<Song>, artista: string, t: string)
    requires TitleByArtist(playlist, artista, t)
    ensures t in TitulosDeArtista(playlist, artista)
  {
    var kept := Filter(playlist, ByArtist(artista));
    var i :| 0 <= i < |playlist| && OfArtist(artista, playlist[i]) && playlist[i].title == t;
    FilterElements(playlist, ByArtist(artista), playlist[i]);
    var k :| 0 <= k < |kept| && kept[k] == playlist[i];
    assert Map(kept, Title)[k] == t;
  }

  /** Two spellings of an artist that differ only in case select the same titles. */
  lemma TitulosDeArtistaIgnoresCase(playlist: seq<Song>, a: string, b: string)
    requires EqualsIgnoreCase(a, b)
    ensures TitulosDeArtista(playlist, a) == TitulosDeArtista(playlist, b)
  {
    EqualsIgnoreCaseIffLowerEqual(a, b);
    forall s | s in playlist ensures ByArtist(a)(s) == ByArtist(b)(s) {
      EqualsIgnoreCaseIffLowerEqual(s.artist, a);
      EqualsIgnoreCaseIffLowerEqual(s.artist, b);
    }
    FilterCongruent(playlist, ByArtist(a), ByArtist(b));
  }

  // ---------------------------------------------------------------------
  // titulosRecomendadosUnicosOrdenados:
  //   filter(rating >= 4.5) -> distinct() -> map(title) -> sorted()
  // ---------------------------------------------------------------------

  function TitulosRecomendadosUnicosOrdenados(playlist: seq<Song>): seq<string> {
    Sort(Map(Distinct(Filter(playlist, IsRecommended)), Title))
  }

  /** The titles some song rated 4.5 or more has. */
  predicate RecommendedTitle(playlist: seq<Song>, t: string) {
    exists i :: 0 <= i < |playlist| && IsRecommended(playlist[i]) && playlist[i].title == t
  }

  /**
   * Ascending titles of the recommended songs, one entry per distinct
   * recommended song: `distinct()` runs on whole songs, before the titles
   * are taken.
   */
  lemma TitulosRecomendadosUnicosOrdenadosSpec(playlist: seq<Song>)
    ensures var r := TitulosRecomendadosUnicosOrdenados(playlist);
      && Sorted(r)
      && |r| == |Distinct(Filter(playlist, IsRecommended))|
      && (forall t :: t in r <==> RecommendedTitle(playlist, t))
      && (forall t :: multiset(r)[t] == |set s | s in playlist && IsRecommended(s) && s.title == t|)
  {
    var titles := Map(Distinct(Filter(playlist, IsRecommended)), Title);
    var r := Sort(titles);
    SortSpec(titles);
    forall t ensures multiset(r)[t] == |set s | s in playlist && IsRecommended(s) && s.title == t| {
      RecommendedTitleCount(playlist, t);
    }
    assert |r| == |multiset(r)| == |multiset(titles)| == |titles|;
    forall t ensures t in r <==> RecommendedTitle(playlist, t) {
      SortElements(titles, t);
      if t in titles {
        RecommendedTitleFromSong(playlist, t);
      }
      if RecommendedTitle(playlist, t) {
        RecommendedTitleKept(playlist, t);
      }
    }
  }

  /** After `distinct()`, a title is listed once per different recommended song that has it. */
  lemma RecommendedTitleCount(playlist: seq<Song>, t: string)
    ensures multiset(Map(Distinct(Filter(playlist, IsRecommended)), Title))[t]
      == |set s | s in playlist && IsRecommended(s) && s.title == t|
  {
    var kept := Filter(playlist, IsRecommended);
    var unique := Distinct(kept);
    DistinctSpec(kept);
    MapCountsUnique(unique, Title, t);
    forall s ensures s in unique <==> s in playlist && IsRecommended(s) {
      FilterElements(playlist, IsRecommended, s);
    }
    assert Preimage(unique, Title, t) == (set s | s in playlist && IsRecommended(s) && s.title == t);
  }

  /** A title that survives `distinct()` belongs to a recommended song. */
  lemma RecommendedTitleFromSong(playlist: seq<Song>, t: string)
    requires t in Map(Distinct(Filter(playlist, IsRecommended)), Title)
    ensures RecommendedTitle(playlist, t)
  {
    var kept := Filter(playlist, IsRecommended);
    var unique := Distinct(kept);
    var k :| 0 <= k < |unique| && Title(unique[k]) == t;
    DistinctSpec(kept);
    FilterElements(playlist, IsRecommended, unique[k]);
    var i :| 0 <= i < |playlist| && playlist[i] == unique[k];
  }

  /** Every recommended song's title survives `distinct()`. */
  lemma RecommendedTitleKept(playlist: seq<Song>, t: string)
    requires RecommendedTitle(playlist, t)
    ensures t in Map(Distinct(Filter(playlist, IsRecommended)), Title)
  {
    var kept := Filter(playlist, IsRecommended);
    var unique := Distinct(kept);
    var i :| 0 <= i < |playlist| && IsRecommended(playlist[i]) && playlist[i].title == t;
    FilterElements(playlist, IsRecommended, playlist[i]);
    DistinctSpec(kept);
    var k :| 0 <= k < |unique| && unique[k] == playlist[i];
    assert Map(unique, Title)[k] == t;
  }

  /** Listing a song again changes nothing: the repeat is removed before the titles are taken. */
  lemma TitulosRecomendadosIgnoresRepeat(playlist: seq<Song>, s: Song)
    requires s in playlist
    ensures TitulosRecomendadosUnicosOrdenados(playlist + [s]) == TitulosRecomendadosUnicosOrdenados(playlist)
  {
    var kept := Filter(playlist, IsRecommended);
    FilterAppend(playlist, [s], IsRecommended);
    assert [s][1..] == [];
    if IsRecommended(s) {
      FilterElements(playlist, IsRecommended, s);
      DistinctSnoc(kept, s);
    } else {
      assert kept + [] == kept;
    }
  }

  // ---------------------------------------------------------------------
  // top2PorRatingLuegoDuracion:
  //   distinct() -> sorted(comparing(rating, reverseOrder())) -> limit(2) -> map(title)
  // ---------------------------------------------------------------------

  /** The songs the pipeline keeps before taking their titles. */
  function Top2Songs(playlist: seq<Song>): seq<Song> {
    Limit(SortByKeyDesc(Distinct(playlist), Rating), 2)
  }

  function Top2PorRatingLuegoDuracion(playlist: seq<Song>): seq<string> {
    Map(Top2Songs(playlist), Title)
  }

  /**
   * At most two different songs of the playlist (fewer only when it has
   * fewer distinct songs), best rating first, rated at least as high as
   * every song left out; among songs of equal rating the ones kept are the
   * first in playlist order (the sort is stable and compares ratings only).
   */
  lemma Top2Spec(playlist: seq<Song>)
    ensures var top := Top2Songs(playlist); var d := Distinct(playlist);
      && |top| == (if |d| < 2 then |d| else 2)
      && Top2PorRatingLuegoDuracion(playlist) == Map(top, Title)
      && NoDuplicates(top)
      && (forall x :: x in top ==> x in playlist)
      && SortedByKeyDesc(top, Rating)
      && (forall x, y :: x in top && y in playlist && y !in top ==> y.rating <= x.rating)
      && (forall k :: WithKey(top, Rating, k) <= WithKey(d, Rating, k))
  {
    var d := Distinct(playlist);
    var s := SortByKeyDesc(d, Rating);
    var top := Top2Songs(playlist);
    DistinctSpec(playlist);
    SortByKeyDescSpec(d, Rating);
    assert |s| == |multiset(s)| == |multiset(d)| == |d|;
    PermutationNoDuplicates(d, s);
    LimitOfDescending(s, 2, Rating);
    forall x ensures x in s <==> x in playlist {
      assert x in s <==> x in multiset(s);
      assert x in d <==> x in multiset(d);
    }
    assert forall x, y :: x in top && y in s && y !in top ==> y.rating <= x.rating;
  }

  /**
   * The first `n` elements of a duplicate-free sequence in descending key
   * order: duplicate-free, still descending, keyed at least as high as every
   * element left out, and a prefix of each key class.
   */
  lemma LimitOfDescending(s: seq<Song>, n: nat, key: Song -> int)
    requires NoDuplicates(s) && SortedByKeyDesc(s, key)
    ensures var top := Limit(s, n);
      && NoDuplicates(top)
      && (forall x :: x in top ==> x in s)
      && SortedByKeyDesc(top, key)
      && (forall x, y :: x in top && y in s && y !in top ==> key(y) <= key(x))
      && (forall k :: WithKey(top, key, k) <= WithKey(s, key, k))
  {
    var top := Limit(s, n);
    forall x, y | x in top && y in s && y !in top ensures key(y) <= key(x) {
      LimitLeavesLower(s, n, key, x, y);
    }
    forall k ensures WithKey(top, key, k) <= WithKey(s, key, k) {
      assert s == top + s[|top|..];
      WithKeyAppend(top, s[|top|..], key, k);
    }
  }

  lemma LimitLeavesLower(s: seq<Song>, n: nat, key: Song -> int, x: Song, y: Song)
    requires SortedByKeyDesc(s, key)
    requires x in Limit(s, n) && y in s && y !in Limit(s, n)
    ensures key(y) <= key(x)
  {
    var top := Limit(s, n);
    var m := |top|;
    var i :| 0 <= i < m && top[i] == x;
    var j :| 0 <= j < |s| && s[j] == y;
    assert forall l :: 0 <= l < m ==> top[l] != y;
    assert s[i] == x;
  }

  /**
   * Ratings are the only criterion: when every song has the same rating, the
   * top two are simply the first two different songs, however long any of them is.
   */
  lemma Top2TiesKeepPlaylistOrder(playlist: seq<Song>)
    requires forall i :: 0 <= i < |playlist| ==> playlist[i].rating == playlist[0].rating
    ensures Top2Songs(playlist) == Limit(Distinct(playlist), 2)
  {
    var d := Distinct(playlist);
    DistinctSpec(playlist);
    if d != [] {
      forall i | 0 <= i < |d| ensures d[i].rating == d[0].rating {
        assert d[i] in playlist && d[0] in playlist;
      }
    }
    Top2TiesOfUnique(d);
    DistinctOfUnique(d);
  }

  /** The same, for a playlist without repeated songs: the first two songs. */
  lemma Top2TiesOfUnique(playlist: seq<Song>)
    requires NoDuplicates(playlist)
    requires forall i :: 0 <= i < |playlist| ==> playlist[i].rating == playlist[0].rating
    ensures Top2Songs(playlist) == Limit(playlist, 2)
  {
    if playlist != [] {
      var k := playlist[0].rating;
      var s := SortByKeyDesc(playlist, Rating);
      DistinctOfUnique(playlist);
      SortByKeyDescSpec(playlist, Rating);
      WithKeyOfConstant(playlist, Rating, k);
      forall i | 0 <= i < |s| ensures Rating(s[i]) == k {
        assert s[i] in multiset(playlist);
      }
      WithKeyOfConstant(s, Rating, k);
    }
  }

  /**
   * Three songs of equal rating: the longest one is not in the top two,
   * although a duration tie-break would put it first.
   */
  lemma Top2WithoutDurationTieBreak()
    ensures Top2PorRatingLuegoDuracion([
      Song("Corta", "Ana", 100, 48), Song("Media", "Ana", 200, 48), Song("Larga", "Ana", 300, 48)
    ]) == ["Corta", "Media"]
  {
    var p := [Song("Corta", "Ana", 100, 48), Song("Media", "Ana", 200, 48), Song("Larga", "Ana", 300, 48)];
    assert NoDuplicates(p);
    Top2TiesOfUnique(p);
  }

  // ---------------------------------------------------------------------
  // duracionTotal: mapToInt(seconds) -> sum()
  // ---------------------------------------------------------------------

  /** Java `int` arithmetic: the `Int32` value congruent to `x` modulo 2^32. */
  function WrapInt32(x: int): (r: Int32)
    ensures (x - r) % 0x1_0000_0000 == 0
    ensures MinInt32 <= x <= MaxInt32 ==> r == x
  {
    var m := (x + 0x8000_0000) % 0x1_0000_0000;
    assert x - (m - 0x8000_0000) == (x + 0x8000_0000) / 0x1_0000_0000 * 0x1_0000_0000;
    m - 0x8000_0000
  }

  /** Numbers congruent modulo 2^32 are the same Java `int`. */
  lemma WrapInt32Congruent(x: int, y: int)
    requires (x - y) % 0x1_0000_0000 == 0
    ensures WrapInt32(x) == WrapInt32(y)
  {
    var q := (x - y) / 0x1_0000_0000;
    assert x + 0x8000_0000 == (y + 0x8000_0000) + q * 0x1_0000_0000;
  }

  /** Multiples of 2^32 add up to a multiple of 2^32. */
  lemma MultiplesAdd(a: int, b: int)
    requires a % 0x1_0000_0000 == 0 && b % 0x1_0000_0000 == 0
    ensures (a + b) % 0x1_0000_0000 == 0
  {
    var qa, qb := a / 0x1_0000_0000, b / 0x1_0000_0000;
    assert a + b == (qa + qb) * 0x1_0000_0000;
  }

  /**
   * The sum of the seconds of every entry, repeats included, as a Java
   * `int`: exact while the sum fits, wrapped modulo 2^32 beyond.
   */
  function DuracionTotal(playlist: seq<Song>): (total: Int32)
    ensures (total - Sum(playlist, Seconds)) % 0x1_0000_0000 == 0
    ensures MinInt32 <= Sum(playlist, Seconds) <= MaxInt32 ==> total == Sum(playlist, Seconds)
  {
    WrapInt32(Sum(playlist, Seconds))
  }

  /** The total of two parts of a playlist is the `int` sum of their totals. */
  lemma DuracionTotalAppend(a: seq<Song>, b: seq<Song>)
    ensures DuracionTotal(a + b) == WrapInt32(DuracionTotal(a) + DuracionTotal(b))
  {
    var sa, sb := Sum(a, Seconds), Sum(b, Seconds);
    SumAppend(a, b, Seconds);
    var wa: int, wb: int := WrapInt32(sa), WrapInt32(sb);
    MultiplesAdd(sa - wa, sb - wb);
    assert (sa + sb) - (wa + wb) == (sa - wa) + (sb - wb);
    WrapInt32Congruent(sa + sb, wa + wb);
  }

  // ---------------------------------------------------------------------
  // The queries on the class's own playlist
  // ---------------------------------------------------------------------

  /** The recommended entries: both copies of Refactor among them. */
  lemma RecomendadasDelPlaylist()
    ensures Filter(Playlist, IsRecommended) == [Playlist[0], Playlist[2], Playlist[4], Playlist[5]]
  {
  }

  lemma ContarRecomendadasSeed()
    ensures ContarRecomendadas(Playlist) == 4
  {
    RecomendadasDelPlaylist();
  }

  lemma ArtistaNoa()
    ensures OfArtist("noa", Playlist[0]) && OfArtist("noa", Playlist[2]) && OfArtist("noa", Playlist[5])
  {
  }

  lemma ArtistaLeo()
    ensures !OfArtist("noa", Playlist[1]) && !OfArtist("noa", Playlist[4])
  {
    assert LowerChar("Leo"[0]) != LowerChar("noa"[0]);
  }

  lemma ArtistaAna()
    ensures !OfArtist("noa", Playlist[3]) && !OfArtist("noa", Playlist[6])
  {
    assert LowerChar("Ana"[0]) != LowerChar("noa"[0]);
  }

  lemma CancionesDeNoa()
    ensures Filter(Playlist, ByArtist("noa")) == [Playlist[0], Playlist[2], Playlist[5]]
  {
    ArtistaNoa();
    ArtistaLeo();
    ArtistaAna();
  }

  lemma TitulosDeNoa()
    ensures Map([Playlist[0], Playlist[2], Playlist[5]], Title) == ["Midnight Run", "Refactor", "Refactor"]
  {
  }

  lemma NoaSinMayusculas()
    ensures EqualsIgnoreCase("noa", "NOA")
  {
  }

  /** `"noa"` and `"NOA"` give the same three titles, the repeated one twice. */
  lemma TitulosDeArtistaSeed()
    ensures TitulosDeArtista(Playlist, "noa") == ["Midnight Run", "Refactor", "Refactor"]
    ensures TitulosDeArtista(Playlist, "NOA") == ["Midnight Run", "Refactor", "Refactor"]
  {
    CancionesDeNoa();
    TitulosDeNoa();
    NoaSinMayusculas();
    TitulosDeArtistaIgnoresCase(Playlist, "noa", "NOA");
  }

  lemma PrimerasCincoDistintas()
    ensures NoDuplicates(Playlist[..5])
  {
  }

  lemma CleanCodeEsNueva()
    ensures Playlist[6] !in Playlist[..6]
  {
  }

  /** `distinct()` on the playlist drops the repeated Refactor and nothing else. */
  lemma PlaylistSinRepetir()
    ensures Distinct(Playlist) == Playlist[..5] + [Playlist[6]]
  {
    PrimerasCincoDistintas();
    DistinctOfUnique(Playlist[..5]);
    assert Playlist[..6] == Playlist[..5] + [Playlist[5]];
    assert Playlist == Playlist[..6] + [Playlist[6]];
    assert Playlist[..5][2] == Playlist[5];
    CleanCodeEsNueva();
    DistinctSnoc(Playlist[..5], Playlist[5]);
    DistinctSnoc(Playlist[..6], Playlist[6]);
  }

  lemma RecomendadasSinRepetir()
    ensures Distinct([Playlist[0], Playlist[2], Playlist[4], Playlist[5]]) == [Playlist[0], Playlist[2], Playlist[4]]
  {
    var u := [Playlist[0], Playlist[2], Playlist[4]];
    assert NoDuplicates(u);
    DistinctOfUnique(u);
    assert u[1] == Playlist[5];
    DistinctSnoc(u, Playlist[5]);
    assert u + [Playlist[5]] == [Playlist[0], Playlist[2], Playlist[4], Playlist[5]];
  }

  lemma TitulosRecomendadosEnOrden()
    ensures Sorted(["Midnight Run", "Refactor", "Streams Day"])
  {
    assert LessEq("Midnight Run", "Refactor");
    assert LessEq("Refactor", "Streams Day");
    SortedFromNeighbours(["Midnight Run", "Refactor", "Streams Day"]);
  }

  lemma TitulosRecomendadosUnicosOrdenadosSeed()
    ensures TitulosRecomendadosUnicosOrdenados(Playlist) == ["Midnight Run", "Refactor", "Streams Day"]
  {
    var titles := ["Midnight Run", "Refactor", "Streams Day"];
    RecomendadasDelPlaylist();
    RecomendadasSinRepetir();
    assert Map([Playlist[0], Playlist[2], Playlist[4]], Title) == titles;
    TitulosRecomendadosEnOrden();
    SortIs(titles, titles);
  }

  // The stable sort by rating of the distinct songs, one insertion at a time
  // from the back: ratings 46, 41, 49, 38, 47, 42.

  lemma PorRatingUltimasDos()
    ensures SortByKeyDesc([Playlist[4], Playlist[6]], Rating) == [Playlist[4], Playlist[6]]
  {
    assert [Playlist[4], Playlist[6]][1..] == [Playlist[6]];
    assert SortByKeyDesc([Playlist[6]], Rating) == [Playlist[6]];
  }

  lemma InsertaBugHunter()
    ensures InsertByKeyDesc(Playlist[3], [Playlist[4], Playlist[6]], Rating) == [Playlist[4], Playlist[6], Playlist[3]]
  {
    assert [Playlist[4], Playlist[6]][1..] == [Playlist[6]];
    assert InsertByKeyDesc(Playlist[3], [Playlist[6]], Rating) == [Playlist[6], Playlist[3]];
  }

  lemma PorRatingUltimasTres()
    ensures SortByKeyDesc([Playlist[3], Playlist[4], Playlist[6]], Rating) == [Playlist[4], Playlist[6], Playlist[3]]
  {
    assert [Playlist[3], Playlist[4], Playlist[6]][1..] == [Playlist[4], Playlist[6]];
    PorRatingUltimasDos();
    InsertaBugHunter();
  }

  lemma InsertaRefactor()
    ensures InsertByKeyDesc(Playlist[2], [Playlist[4], Playlist[6], Playlist[3]], Rating)
      == [Playlist[2], Playlist[4], Playlist[6], Playlist[3]]
  {
  }

  lemma PorRatingUltimasCuatro()
    ensures SortByKeyDesc([Playlist[2], Playlist[3], Playlist[4], Playlist[6]], Rating)
      == [Playlist[2], Playlist[4], Playlist[6], Playlist[3]]
  {
    assert [Playlist[2], Playlist[3], Playlist[4], Playlist[6]][1..] == [Playlist[3], Playlist[4], Playlist[6]];
    PorRatingUltimasTres();
    InsertaRefactor();
  }

  lemma InsertaCampusLifeTrasStreamsDay()
    ensures InsertByKeyDesc(Playlist[1], [Playlist[6], Playlist[3]], Rating) == [Playlist[6], Playlist[1], Playlist[3]]
  {
    assert [Playlist[6], Playlist[3]][1..] == [Playlist[3]];
  }

  lemma InsertaCampusLife()
    ensures InsertByKeyDesc(Playlist[1], [Playlist[2], Playlist[4], Playlist[6], Playlist[3]], Rating)
      == [Playlist[2], Playlist[4], Playlist[6], Playlist[1], Playlist[3]]
  {
    var s := [Playlist[2], Playlist[4], Playlist[6], Playlist[3]];
    assert s[1..] == [Playlist[4], Playlist[6], Playlist[3]];
    assert s[1..][1..] == [Playlist[6], Playlist[3]];
    InsertaCampusLifeTrasStreamsDay();
  }

  lemma PorRatingUltimasCinco()
    ensures SortByKeyDesc([Playlist[1], Playlist[2], Playlist[3], Playlist[4], Playlist[6]], Rating)
      == [Playlist[2], Playlist[4], Playlist[6], Playlist[1], Playlist[3]]
  {
    assert [Playlist[1], Playlist[2], Playlist[3], Playlist[4], Playlist[6]][1..]
      == [Playlist[2], Playlist[3], Playlist[4], Playlist[6]];
    PorRatingUltimasCuatro();
    InsertaCampusLife();
  }

  lemma InsertaMidnightRunTrasStreamsDay()
    ensures InsertByKeyDesc(Playlist[0], [Playlist[6], Playlist[1], Playlist[3]], Rating)
      == [Playlist[0], Playlist[6], Playlist[1], Playlist[3]]
  {
  }

  lemma InsertaMidnightRun()
    ensures InsertByKeyDesc(Playlist[0], [Playlist[2], Playlist[4], Playlist[6], Playlist[1], Playlist[3]], Rating)
      == [Playlist[2], Playlist[4], Playlist[0], Playlist[6], Playlist[1], Playlist[3]]
  {
    var s := [Playlist[2], Playlist[4], Playlist[6], Playlist[1], Playlist[3]];
    assert s[1..] == [Playlist[4], Playlist[6], Playlist[1], Playlist[3]];
    assert s[1..][1..] == [Playlist[6], Playlist[1], Playlist[3]];
    InsertaMidnightRunTrasStreamsDay();
  }

  lemma PorRatingSinRepetir()
    ensures SortByKeyDesc(Distinct(Playlist), Rating)
      == [Playlist[2], Playlist[4], Playlist[0], Playlist[6], Playlist[1], Playlist[3]]
  {
    var s := Playlist[..5] + [Playlist[6]];
    PlaylistSinRepetir();
    assert s[0] == Playlist[0];
    assert s[1..] == [Playlist[1], Playlist[2], Playlist[3], Playlist[4], Playlist[6]];
    PorRatingUltimasCinco();
    InsertaMidnightRun();
  }

  lemma Top2PorRatingLuegoDuracionSeed()
    ensures Top2PorRatingLuegoDuracion(Playlist) == ["Refactor", "Streams Day"]
  {
    PorRatingSinRepetir();
    var s := [Playlist[2], Playlist[4], Playlist[0], Playlist[6], Playlist[1], Playlist[3]];
    assert Limit(s, 2) == [Playlist[2], Playlist[4]];
    assert Map([Playlist[2], Playlist[4]], Title) == ["Refactor", "Streams Day"];
  }

  lemma SegundosDelPlaylist()
    ensures Sum(Playlist, Seconds) == 1495
  {
  }

  lemma DuracionTotalSeed()
    ensures DuracionTotal(Playlist) == 1495
  {
    SegundosDelPlaylist();
  }
}
