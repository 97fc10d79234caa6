/**
 * The catalog records (`entites/core.py`) and the strings derived from an `Anime`:
 * its display title, its genre list and the Russian count phrases for seasons and films.
 */
module Entities {
  import opened Wrappers
  import opened Text

  datatype Genre = Genre(id: int, name: string)

  datatype AnimeStudio = AnimeStudio(id: int, name: string)

  /** The fields of `Anime` that the index and the derived strings read. */
  datatype Anime = Anime(
    id: int,
    title: string,
    titleEnglish: Option<string>,
    titleJapanese: Option<string>,
    seasons: Option<int>,
    films: Option<int>,
    genres: seq<Genre>,
    studios: seq<AnimeStudio>)

  /** `title_english or title_japanese or title`: `None` and `""` both fall through. */
  function DisplayTitle(a: Anime): (t: string)
    ensures TruthyString(a.titleEnglish) ==> t == a.titleEnglish.value
    ensures !TruthyString(a.titleEnglish) && TruthyString(a.titleJapanese) ==> t == a.titleJapanese.value
    ensures !TruthyString(a.titleEnglish) && !TruthyString(a.titleJapanese) ==> t == a.title
  {
    if TruthyString(a.titleEnglish) then a.titleEnglish.value
    else if TruthyString(a.titleJapanese) then a.titleJapanese.value
    else a.title
  }

  /** The display title is one of the record's own titles, and empty only when all of them are. */
  lemma DisplayTitleIsOwnTitle(a: Anime)
    ensures DisplayTitle(a) in {a.title, OrEmpty(a.titleEnglish), OrEmpty(a.titleJapanese)}
    ensures DisplayTitle(a) == "" <==> a.title == "" && OrEmpty(a.titleEnglish) == "" && OrEmpty(a.titleJapanese) == ""
  {
  }

  // ---------------------------------------------------------------------------
  // get_genres_string

  /** Python's `sep.join(parts)`. */
  function Join(parts: seq<string>, sep: string): (r: string)
    ensures parts == [] ==> r == ""
    ensures |parts| == 1 ==> r == parts[0]
    decreases |parts|
  {
    if parts == [] then ""
    else if |parts| == 1 then parts[0]
    else parts[0] + sep + Join(parts[1..], sep)
  }

  /** `[genre.name for genre in genres]`. */
  function GenreNames(genres: seq<Genre>): (names: seq<string>)
    ensures |names| == |genres|
    ensures forall k :: 0 <= k < |genres| ==> names[k] == genres[k].name
  {
    if genres == [] then [] else [genres[0].name] + GenreNames(genres[1..])
  }

  /** `[studio.name for studio in studios]`. */
  function StudioNames(studios: seq<AnimeStudio>): (names: seq<string>)
    ensures |names| == |studios|
    ensures forall k :: 0 <= k < |studios| ==> names[k] == studios[k].name
  {
    if studios == [] then [] else [studios[0].name] + StudioNames(studios[1..])
  }

  /** `", ".join([genre.name for genre in self.genres])`. */
  function GenresString(a: Anime): (s: string)
    ensures a.genres == [] ==> s == ""
  {
    Join(GenreNames(a.genres), ", ")
  }

  /** Cuts s at every ',' and skips the one character after it: the reading-back of a ", "-joined list. */
  function SplitAtCommas(s: string): seq<string>
    decreases |s|
  {
    var i := IndexOf(s, ',');
    if i == |s| then [s]
    else [s[..i]] + SplitAtCommas(s[if i + 2 <= |s| then i + 2 else |s|..])
  }

  lemma {:induction false} SplitJoin(parts: seq<string>)
    requires parts != []
    requires forall k :: 0 <= k < |parts| ==> ',' !in parts[k]
    ensures SplitAtCommas(Join(parts, ", ")) == parts
    decreases |parts|
  {
    if |parts| == 1 {
      var s := parts[0];
      assert ',' !in s;
      assert IndexOf(s, ',') == |s|;
    } else {
      var head := parts[0];
      var rest := Join(parts[1..], ", ");
      var s := head + ", " + rest;
      assert Join(parts, ", ") == s;
      assert ',' !in head;
      assert s == head + [','] + ([' '] + rest);
      IndexOfAfter(head, ',', [' '] + rest);
      var i := |head|;
      assert s[..i] == head;
      assert s[i + 2..] == rest;
      SplitJoin(parts[1..]);
      assert SplitAtCommas(s) == [head] + parts[1..];
      assert [head] + parts[1..] == parts;
    }
  }

  /** When no genre name contains a comma, the genre string lists exactly the genre names, in order. */
  lemma GenresStringListsNames(a: Anime)
    requires a.genres != []
    requires forall k :: 0 <= k < |a.genres| ==> ',' !in a.genres[k].name
    ensures SplitAtCommas(GenresString(a)) == GenreNames(a.genres)
  {
    SplitJoin(GenreNames(a.genres));
  }

  // ---------------------------------------------------------------------------
  // get_seasons_string and get_films_string

  /** What Python raises for `None > 1`. */
  const NoneComparedError := TypeError("'>' not supported between instances of 'NoneType' and 'int'")

  /**
   * `get_seasons_string`: 1 gives "1 Сезон", 2 to 4 give "n Сезона", every other integer
   * "n Сезонов"; `None` fails at the comparison `seasons > 1`.
   */
  function SeasonsString(seasons: Option<int>): (r: Result<string, Exception>)
    ensures seasons.None? ==> r == Failure(NoneComparedError)
    ensures seasons == Some(1) ==> r == Success("1 Сезон")
    ensures seasons.Some? && 2 <= seasons.value <= 4 ==> r == Success(IntToString(seasons.value) + " Сезона")
    ensures seasons.Some? && (seasons.value <= 0 || 5 <= seasons.value) ==> r == Success(IntToString(seasons.value) + " Сезонов")
  {
    match seasons
    case None => Failure(NoneComparedError)
    case Some(n) =>
      if n == 1 then Success("1 Сезон")
      else if n > 1 && n < 5 then Success(IntToString(n) + " Сезона")
      else Success(IntToString(n) + " Сезонов")
  }

  /**
   * `get_films_string`: 0 gives "Нет фильмов", 1 "1 Фильм", 2 to 4 "n Фильма", every other
   * integer "n Фильмов"; `None` fails at the comparison `films > 1`.
   */
  function FilmsString(films: Option<int>): (r: Result<string, Exception>)
    ensures films.None? ==> r == Failure(NoneComparedError)
    ensures films == Some(0) ==> r == Success("Нет фильмов")
    ensures films == Some(1) ==> r == Success("1 Фильм")
    ensures films.Some? && 2 <= films.value <= 4 ==> r == Success(IntToString(films.value) + " Фильма")
    ensures films.Some? && (films.value < 0 || 5 <= films.value) ==> r == Success(IntToString(films.value) + " Фильмов")
  {
    match films
    case None => Failure(NoneComparedError)
    case Some(n) =>
      if n == 0 then Success("Нет фильмов")
      else if n == 1 then Success("1 Фильм")
      else if n > 1 && n < 5 then Success(IntToString(n) + " Фильма")
      else Success(IntToString(n) + " Фильмов")
  }

  /** The noun form a count takes: exactly one of the three. */
  function SeasonsNoun(n: int): string {
    if n == 1 then "Сезон" else if 2 <= n <= 4 then "Сезона" else "Сезонов"
  }

  function FilmsNoun(n: int): string {
    if n == 1 then "Фильм" else if 2 <= n <= 4 then "Фильма" else "Фильмов"
  }

  /**
   * For every integer the seasons phrase is the count written in decimal, a space and one
   * noun form; the count reads back as n, so the phrase names the right number.
   */
  lemma SeasonsStringNamesCount(n: int)
    ensures SeasonsString(Some(n)).Success?
    ensures SeasonsString(Some(n)).value == IntToString(n) + " " + SeasonsNoun(n)
    ensures ParseInt(IntToString(n)) == n
  {
    ParseIntToString(n);
    if n == 1 {
      assert IntToString(1) == "1";
    }
  }

  /** The films phrase is the same shape for every integer but 0, which reads "Нет фильмов". */
  lemma FilmsStringNamesCount(n: int)
    requires n != 0
    ensures FilmsString(Some(n)).Success?
    ensures FilmsString(Some(n)).value == IntToString(n) + " " + FilmsNoun(n)
    ensures ParseInt(IntToString(n)) == n
  {
    ParseIntToString(n);
    if n == 1 {
      assert IntToString(1) == "1";
    }
  }

  /** 21 takes the "many" form, not the singular that Russian grammar would choose. */
  lemma TwentyOneSeasons()
    ensures SeasonsString(Some(21)) == Success("21 Сезонов")
  {
    assert NatToString(21) == NatToString(2) + [DigitChar(1)];
    assert NatToString(2) == "2" && DigitChar(1) == '1';
    assert IntToString(21) == "21";
    assert "21" + " Сезонов" == "21 Сезонов";
  }
}
