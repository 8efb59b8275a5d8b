# Streams katas in Dafny

This project models two Java "kata" classes. Each is a set of short stream
pipelines over fixed, immutable lists:

- `StringStreamsKata` runs string-normalisation queries over the country list
  `paises`, the user handles `usuarios` and the word list `tokens`. The steps
  are `trim()`, `toLowerCase()`, `endsWith`/`startsWith` filters,
  `distinct()` and `sorted()`.
- `ObjectStreamsKata` runs queries over a seven-song `playlist` of
  `Song(title, artist, seconds, rating)`. It filters by rating or artist
  (`equalsIgnoreCase`), applies `distinct()` on whole songs, sorts by rating
  with a comparator, keeps the top two with `limit(2)`, counts, and sums the
  durations as a Java `int`.

Every implemented method is a side-effect-free function of its list, so the
model is functional. The project has four modules:

- `JavaStrings` holds the `java.lang.String` operations the pipelines use, on
  `seq<char>`.
- `Streams` holds the stream stages as functions on sequences:
  - `Filter`, `Map`, `Distinct` (keeps first occurrences) and `Limit`.
  - `Sort`, an insertion sort under `compareTo`.
  - `SortByKeyDesc`, a stable sort by a descending integer key.
  - `Sum`.
  Each stage has lemmas stating what it returns.
- `StringStreamsKata` and `ObjectStreamsKata` each write a query as a function
  of the list it reads. The class's own lists are constants. One lemma per
  query proves what the query returns for every input. Further lemmas
  compute the value on the class's own lists.

Each query function, such as `PaisesQueTerminanEnA` or `Top2Songs`, is
defined without a contract of its own, except `DuracionTotal`, whose own
`ensures` state what it returns. The `...Spec` lemma that follows it
states what it returns, so the row of that lemma in the table below stands
for the query.

Representation choices:

- A song's `rating` is a whole number of tenths: 4.6 is 46, and the threshold
  4.5 is 45. Every rating in the playlist has exactly one decimal.
- `Song` is a datatype, so two songs are equal exactly when all four fields
  are. `distinct()` depends on that equality.
- `seconds` and the result of `duracionTotal` are 32-bit `Int32` values. The
  sum wraps modulo 2^32 as Java `int` addition does.
- Case mapping covers only ASCII `A`..`Z`. `trim()` removes every character up
  to and including the space (U+0020) from both ends.

The model follows the code where its comments say otherwise:

- `paisesQueTerminanEnA` sorts its result. Its comment asks to keep the list
  order.
- `paisesQueTerminanEnAOrdenados` has no suffix filter. It also runs
  `distinct()` before `toLowerCase()`. `DistinctBeforeLowerKeepsCaseVariants`
  shows an input where that order matters.
- `top2PorRatingLuegoDuracion` compares ratings only. Its comment promises a
  tie-break on duration. `Top2WithoutDurationTieBreak` shows an input where
  the missing tie-break changes the result.

## Model

| member | source | states |
|---|---|---|
| StringStreamsKata.PaisesQueTerminanEnASpec | src/main/java/com/ivancorrales/streams/strings/StringStreamsKata.java:58-63 | The result is in ascending order. Every entry ends in `a`. Each country ending in `a` appears as often as it is listed, and no other string appears: a sorted permutation of the matching countries. |
| StringStreamsKata.PaisesQueTerminanEnASeed | src/main/java/com/ivancorrales/streams/strings/StringStreamsKata.java:26 | On the class's countries the result is España, Francia, Irlanda, Italia, Noruega. |
| StringStreamsKata.PaisesQueTerminanEnAOrdenadosSpec | src/main/java/com/ivancorrales/streams/strings/StringStreamsKata.java:72-79 | The result is ascending and all lower case. Its length is the number of distinct countries. A string is in it exactly when it is the lower-case form of some country, with no suffix filter. Each lower-case string appears once for every different spelling among the countries that lower-cases to it. |
| StringStreamsKata.LowerCaseVariantsCount | src/main/java/com/ivancorrales/streams/strings/StringStreamsKata.java:75-76 | After `distinct()` and then `toLowerCase()`, a string appears once per different country spelling that lower-cases to it. |
| StringStreamsKata.PaisesQueTerminanEnAOrdenadosSeed | src/main/java/com/ivancorrales/streams/strings/StringStreamsKata.java:26 | On the class's countries the result is all six lower-cased names in ascending order, Portugal included. |
| StringStreamsKata.DistinctBeforeLowerKeepsCaseVariants | src/main/java/com/ivancorrales/streams/strings/StringStreamsKata.java:74-77 | `distinct()` before `toLowerCase()` keeps "chile" twice for ["Chile", "CHILE"]. The other order, `toLowerCase()` then `distinct()`, keeps it once. |
| StringStreamsKata.PaisesMinusculasUnicosOrdenadosSpec | src/main/java/com/ivancorrales/streams/strings/StringStreamsKata.java:88-97 | The result is ascending, duplicate-free and all lower case. Its elements are exactly the lower-cased countries. |
| StringStreamsKata.PaisesMinusculasUnicosOrdenadosIsCanonical | src/main/java/com/ivancorrales/streams/strings/StringStreamsKata.java:90-94 | Any ascending, duplicate-free list of exactly the lower-cased countries equals the result. |
| StringStreamsKata.PaisesMinusculasUnicosOrdenadosSeed | src/main/java/com/ivancorrales/streams/strings/StringStreamsKata.java:26 | On the class's countries the result is españa, francia, irlanda, italia, noruega, portugal. |
| StringStreamsKata.Normalizados | src/main/java/com/ivancorrales/streams/strings/StringStreamsKata.java:115-117 | The normalised list has one entry per handle, at the same position: that handle trimmed, then lower-cased. |
| StringStreamsKata.NormalFormIsFixed | src/main/java/com/ivancorrales/streams/strings/StringStreamsKata.java:116-117 | A trimmed, lower-cased handle has no upper-case letter. Trimming and lower-casing it again changes nothing. |
| StringStreamsKata.UsuariosNormalizadosSinRepetirSpec | src/main/java/com/ivancorrales/streams/strings/StringStreamsKata.java:113-120 | The result has no duplicates. It holds exactly the strings some handle normalises to, each already in normal form. They come in the order of first appearance in the normalised list. |
| StringStreamsKata.UsuariosNormalizadosSinRepetirSeed | src/main/java/com/ivancorrales/streams/strings/StringStreamsKata.java:27 | On the class's handles the result is noa, leo, ana, mario. |
| StringStreamsKata.LowerKeepsHash | src/main/java/com/ivancorrales/streams/strings/StringStreamsKata.java:142-143 | A string starts with `#` exactly when its lower-case form does. |
| StringStreamsKata.HashtagsEnMinusculasElements | src/main/java/com/ivancorrales/streams/strings/StringStreamsKata.java:140-143 | The pipeline up to `map(toLowerCase)` yields a string exactly when some token, once trimmed, starts with `#` and lower-cases to it. |
| StringStreamsKata.HashtagsUnicosOrdenadosSpec | src/main/java/com/ivancorrales/streams/strings/StringStreamsKata.java:138-147 | The result is ascending and duplicate-free. Every entry is lower case and starts with `#`. It holds exactly the lower-cased, trimmed tokens that start with `#`. |
| StringStreamsKata.TokenContributesIffTrimmedIsHashtag | src/main/java/com/ivancorrales/streams/strings/StringStreamsKata.java:141-142 | A token's normal form is in the result exactly when the trimmed token starts with `#`. Leading blanks do not hide a hashtag, because trimming runs before the filter. |
| StringStreamsKata.HashtagsUnicosOrdenadosSeed | src/main/java/com/ivancorrales/streams/strings/StringStreamsKata.java:29-35 | On the class's tokens the result is #dam, #fp, #java, #streams. |
| ObjectStreamsKata.ContarRecomendadasSpec | src/main/java/com/ivancorrales/streams/objects/ObjectStreamsKata.java:50-54 | The count is the number of playlist positions holding a song rated 4.5 or more, so repeats count. It never exceeds the playlist's length. |
| ObjectStreamsKata.ContarRecomendadasAppend | src/main/java/com/ivancorrales/streams/objects/ObjectStreamsKata.java:52 | Appending a song adds one to the count exactly when it is rated 4.5 or more. The threshold itself counts, and it does not matter whether an equal song is already listed. |
| ObjectStreamsKata.ContarRecomendadasSeed | src/main/java/com/ivancorrales/streams/objects/ObjectStreamsKata.java:31-39 | On the class's playlist the count is 4. |
| ObjectStreamsKata.TitulosDeArtistaSpec | src/main/java/com/ivancorrales/streams/objects/ObjectStreamsKata.java:60-70 | One title per song by the artist, ignoring case, with as many titles as matching positions. A title is returned exactly when some song by the artist has it. The result is the titles of the subsequence of the playlist that holds every song by the artist and no other song, so the titles come in playlist order. |
| ObjectStreamsKata.TitulosDeArtistaAppend | src/main/java/com/ivancorrales/streams/objects/ObjectStreamsKata.java:60 | Playlist order is kept: for a playlist in two parts, the result is the first part's titles followed by the second part's. |
| ObjectStreamsKata.TitulosDeArtistaOfOne | src/main/java/com/ivancorrales/streams/objects/ObjectStreamsKata.java:68-69 | A single song gives its own title when its artist matches, ignoring case, and nothing otherwise. |
| ObjectStreamsKata.TitulosDeArtistaIgnoresCase | src/main/java/com/ivancorrales/streams/objects/ObjectStreamsKata.java:68 | Two spellings of an artist that differ only in case select the same titles. |
| ObjectStreamsKata.TitulosDeArtistaSeed | src/main/java/com/ivancorrales/streams/objects/ObjectStreamsKata.java:31-39 | "noa" and "NOA" both give Midnight Run, Refactor, Refactor. |
| ObjectStreamsKata.TitulosRecomendadosUnicosOrdenadosSpec | src/main/java/com/ivancorrales/streams/objects/ObjectStreamsKata.java:80-88 | The result is ascending. A title is in it exactly when some song rated 4.5 or more has that title. Each title appears once for every different recommended song that has it, because `distinct()` runs on whole songs. |
| ObjectStreamsKata.RecommendedTitleCount | src/main/java/com/ivancorrales/streams/objects/ObjectStreamsKata.java:83-85 | After `filter`, `distinct()` and `map(getTitle)`, a title appears once per different song rated 4.5 or more that has it. |
| ObjectStreamsKata.TitulosRecomendadosIgnoresRepeat | src/main/java/com/ivancorrales/streams/objects/ObjectStreamsKata.java:84 | Appending a song that is already listed leaves the result unchanged. |
| ObjectStreamsKata.PlaylistSinRepetir | src/main/java/com/ivancorrales/streams/objects/ObjectStreamsKata.java:34-37 | `distinct()` on the class's playlist drops the repeated Refactor entry and nothing else. |
| ObjectStreamsKata.TitulosRecomendadosUnicosOrdenadosSeed | src/main/java/com/ivancorrales/streams/objects/ObjectStreamsKata.java:31-39 | On the class's playlist the result is Midnight Run, Refactor, Streams Day. |
| ObjectStreamsKata.Top2Spec | src/main/java/com/ivancorrales/streams/objects/ObjectStreamsKata.java:102-111 | At most two different songs, taken from the playlist. There are fewer only when the playlist has fewer distinct songs. The best rating comes first. Each kept song is rated at least as high as every song left out. Within a rating, the kept songs are the first ones in playlist order. The result is the titles of the kept songs, in the same order. |
| ObjectStreamsKata.LimitOfDescending | src/main/java/com/ivancorrales/streams/objects/ObjectStreamsKata.java:107-108 | The first n songs of a duplicate-free list sorted by descending key are duplicate-free and still descending. Each is keyed at least as high as every song left out, and they form a prefix of each key class. |
| ObjectStreamsKata.Top2TiesKeepPlaylistOrder | src/main/java/com/ivancorrales/streams/objects/ObjectStreamsKata.java:107 | When all songs share one rating, the top two are the first two different songs, whatever their durations. |
| ObjectStreamsKata.Top2TiesOfUnique | src/main/java/com/ivancorrales/streams/objects/ObjectStreamsKata.java:107 | When all songs of a playlist without repeats share one rating, the top two are its first two songs. |
| ObjectStreamsKata.Top2WithoutDurationTieBreak | src/main/java/com/ivancorrales/streams/objects/ObjectStreamsKata.java:94 | Three equally rated songs of 100, 200 and 300 seconds give Corta, Media. The longest song is not kept, although a duration tie-break would rank it first. |
| ObjectStreamsKata.Top2PorRatingLuegoDuracionSeed | src/main/java/com/ivancorrales/streams/objects/ObjectStreamsKata.java:31-39 | On the class's playlist the result is Refactor, Streams Day. |
| ObjectStreamsKata.WrapInt32 | src/main/java/com/ivancorrales/streams/objects/ObjectStreamsKata.java:126 | Java `int` arithmetic: the result is the `Int32` value congruent to the input modulo 2^32. It equals the input when the input fits. |
| ObjectStreamsKata.WrapInt32Congruent | src/main/java/com/ivancorrales/streams/objects/ObjectStreamsKata.java:126 | Numbers congruent modulo 2^32 wrap to the same Java `int`. |
| ObjectStreamsKata.DuracionTotal | src/main/java/com/ivancorrales/streams/objects/ObjectStreamsKata.java:122-127 | The total is congruent modulo 2^32 to the sum of the seconds of every entry, repeats included. It equals that sum when the sum fits in an `int`. |
| ObjectStreamsKata.DuracionTotalAppend | src/main/java/com/ivancorrales/streams/objects/ObjectStreamsKata.java:124-126 | The total of a concatenated playlist is the `int` sum of the two parts' totals. |
| ObjectStreamsKata.DuracionTotalSeed | src/main/java/com/ivancorrales/streams/objects/ObjectStreamsKata.java:31-39 | On the class's playlist the total is 1495 seconds. |
| Streams.Map | src/main/java/com/ivancorrales/streams/objects/ObjectStreamsKata.java:109 | `map(f)` keeps the length and puts `f` of each element at that element's position. |
| Streams.MapCountsUnique | src/main/java/com/ivancorrales/streams/objects/ObjectStreamsKata.java:84-85 | Mapping a duplicate-free sequence lists each value once for every element that maps to it. |
| Streams.Limit | src/main/java/com/ivancorrales/streams/objects/ObjectStreamsKata.java:108 | `limit(n)` is the prefix of length n, or the whole sequence when it is shorter. |
| Streams.FilterSpec | src/main/java/com/ivancorrales/streams/objects/ObjectStreamsKata.java:52 | `filter(p)` keeps exactly the elements satisfying `p`, each with its full multiplicity. The result is a subsequence of the input. |
| Streams.FilterCountsPositions | src/main/java/com/ivancorrales/streams/objects/ObjectStreamsKata.java:52-53 | The length of `filter(p)` is the number of positions whose element satisfies `p`. |
| Streams.DistinctSpec | src/main/java/com/ivancorrales/streams/objects/ObjectStreamsKata.java:84 | `distinct()` keeps every value of the input exactly once. |
| Streams.DistinctKeepsFirstAppearance | src/main/java/com/ivancorrales/streams/strings/StringStreamsKata.java:118 | `distinct()` orders the kept values by where each first appears in the input. |
| Streams.DistinctOfUnique | src/main/java/com/ivancorrales/streams/strings/StringStreamsKata.java:92 | `distinct()` leaves a duplicate-free sequence unchanged. |
| Streams.SortSpec | src/main/java/com/ivancorrales/streams/strings/StringStreamsKata.java:93 | `sorted()` returns an ascending permutation of its input. |
| Streams.SortedPermutationUnique | src/main/java/com/ivancorrales/streams/strings/StringStreamsKata.java:93 | Only one ascending permutation of a sequence exists, so any correct sort gives the same result. |
| Streams.SortByKeyDescSpec | src/main/java/com/ivancorrales/streams/objects/ObjectStreamsKata.java:107 | Sorting by descending key returns a permutation ordered by descending key. It is stable: the elements of each key keep their relative order. |
| Streams.StableSortUnique | src/main/java/com/ivancorrales/streams/objects/ObjectStreamsKata.java:107 | Descending key order together with stability determines the result, so every stable sort agrees with the model's. |
| Streams.SumAppend | src/main/java/com/ivancorrales/streams/objects/ObjectStreamsKata.java:125-126 | The sum over a concatenation is the sum of the two sums. |
| JavaStrings.Trim | src/main/java/com/ivancorrales/streams/strings/StringStreamsKata.java:116 | `trim()` returns a string no longer than its input. The result neither starts nor ends with a blank, and it is empty when the input is all blanks. |
| JavaStrings.TrimIsBlankFreeSlice | src/main/java/com/ivancorrales/streams/strings/StringStreamsKata.java:116 | `trim()` returns a contiguous slice of its input, and everything it drops on either side is blank. |
| JavaStrings.TrimIdempotent | src/main/java/com/ivancorrales/streams/strings/StringStreamsKata.java:141 | Trimming twice is the same as trimming once. |
| JavaStrings.LowerChar | src/main/java/com/ivancorrales/streams/strings/StringStreamsKata.java:91 | An ASCII upper-case letter maps to the lower-case letter 32 code points above it. Every other character is unchanged. The result is never an upper-case letter. |
| JavaStrings.ToLower | src/main/java/com/ivancorrales/streams/strings/StringStreamsKata.java:91 | `toLowerCase()` keeps the length, maps each character on its own, and leaves no upper-case letter. |
| JavaStrings.EndsWithChar | src/main/java/com/ivancorrales/streams/strings/StringStreamsKata.java:60 | `endsWith("a")` holds exactly when the last character is `a`. |
| JavaStrings.StartsWithChar | src/main/java/com/ivancorrales/streams/strings/StringStreamsKata.java:142 | `startsWith("#")` holds exactly when the first character is `#`. |
| JavaStrings.EqualsIgnoreCaseIffLowerEqual | src/main/java/com/ivancorrales/streams/objects/ObjectStreamsKata.java:68 | `equalsIgnoreCase` holds exactly when the lower-case forms are equal. |
| JavaStrings.CompareToZeroIffEqual | src/main/java/com/ivancorrales/streams/strings/StringStreamsKata.java:61 | `compareTo` is zero exactly on equal strings. |
| JavaStrings.CompareToAntisymmetric | src/main/java/com/ivancorrales/streams/strings/StringStreamsKata.java:61 | Swapping the arguments of `compareTo` flips the sign of the result. |
| JavaStrings.LessEqTransitive | src/main/java/com/ivancorrales/streams/strings/StringStreamsKata.java:61 | The natural order of strings is transitive. |

## Left out

- `mediaRatingPlaylist` (src/main/java/com/ivancorrales/streams/objects/ObjectStreamsKata.java:139-145) is left out. It computes a `double` average, and floating-point arithmetic is not modelled.
- Methods whose body only throws `UnsupportedOperationException` are left out, since they have no behaviour to model:
  - In ObjectStreamsKata.java: `csvTitulosBuenosOrdenados` (:157), `hayCancionLarga` (:171), `tituloCancionMasCorta` (:183), `top3DeArtistaPorRating` (:194), `duracionMaximaDeBuenas` (:203) and `artistasUnicosOrdenados` (:213).
  - In StringStreamsKata.java: `longitudMaximaHashtag` (:194), `comentariosUnicosLimpiosOrdenados` (:214) and `hashtagsUnicosDesdeComas` (:235).
- `sumaLetrasPaisesEnA` (StringStreamsKata.java:158-167) is left out. Its pipeline follows an unconditional `throw`, so it cannot be reached, and Java rejects it as written.
- `mediaLongitudHashtagsUnicos` (StringStreamsKata.java:179-181) is left out. Its body is empty.
- The lists `comentariosPorPost` and `hashtagsPorPost` (StringStreamsKata.java:36-49) are left out. No implemented method reads them.
- Full Unicode semantics are not modelled for `toLowerCase`, `trim` and `equalsIgnoreCase`:
  - Case mapping covers only ASCII letters.
  - `compareTo` compares `char` values, which equals Java's UTF-16 comparison only for characters in the Basic Multilingual Plane.
- JavaStrings.ToLower: assumes a default locale without special casing rules, that is, not Turkish, Azeri or Lithuanian. In a Turkish or Azeri locale `toLowerCase()` maps ASCII `I` to U+0131, so "Italia" and "Irlanda" would lower-case and sort differently. The values on the class's own countries hold only under a locale without such rules.
- ObjectStreamsKata.TitulosDeArtista: a `null` artist is not modelled, because a Dafny `string` cannot be null. In Java, `equalsIgnoreCase(null)` is false, so `titulosDeArtista(null)` returns an empty list.
- Song.java is not part of this model. Its getters are read as plain field access. `equals` is read as equality of all four fields, which is what the playlist's comments rely on for `distinct()`.
- `contarRecomendadas` returns a Java `long`. The model's count is an unbounded `nat`, because a list of at least 2^63 elements is not modelled.
- `Song` ratings are whole numbers of tenths, not `double`. Ratings with more than one decimal and `double` rounding are not modelled.
- Stream laziness, parallel streams and the immutability of `List.of`/`toList()` are not modelled. Every list is a Dafny value.
