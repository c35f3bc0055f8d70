/** The thirty duas of the "Dua of the Day" card and the daily rotation
    through them. */
module Duas {
  import opened JsValues

  /** A dua, by its reference; the Arabic text and its translation are
      display text and not modelled. */
  datatype Dua = Dua(source: string)

  const Table: seq<Dua> := [
    Dua("Surah Al-Baqarah 2:201"),
    Dua("Surah Ta-Ha 20:25-28"),
    Dua("Surah Al-Imran 3:8"),
    Dua("Surah Al-Qasas 28:24"),
    Dua("Hadith — Ibn Majah"),
    Dua("Surah Al-Hashr 59:10"),
    Dua("Surah Ta-Ha 20:114"),
    Dua("Hadith — Muslim"),
    Dua("Surah Al-Furqan 25:74"),
    Dua("Hadith — Bukhari"),
    Dua("Surah An-Naml 27:19"),
    Dua("Hadith — Muslim"),
    Dua("Surah Al-Baqarah 2:250"),
    Dua("Hadith — Tirmidhi"),
    Dua("Surah Ibrahim 14:40"),
    Dua("Hadith — Abu Dawud"),
    Dua("Hadith — Tirmidhi"),
    Dua("Surah Yunus 10:85-86"),
    Dua("Hadith — Abu Dawud"),
    Dua("Surah Al-Anbiya 21:83"),
    Dua("Surah Al-Anbiya 21:87 — Dua of Yunus (AS)"),
    Dua("Surah Al-Mu'minun 23:109"),
    Dua("Hadith — Ibn Majah"),
    Dua("Surah Ibrahim 14:41"),
    Dua("Hadith — Tabarani"),
    Dua("Surah Al-Furqan 25:65"),
    Dua("Hadith — Nasa'i"),
    Dua("Surah Al-Imran 3:173"),
    Dua("Surah Al-Baqarah 2:127"),
    Dua("Hadith — Ahmad")
  ]

  /** The table has thirty entries. */
  lemma TableSize()
    ensures |Table| == 30
  {
  }

  /** `dayOfYear % DUAS.length`, with JavaScript's remainder. */
  function DuaIndex(dayOfYear: int): (i: int)
    ensures dayOfYear >= 0 ==> 0 <= i < |Table| && i == dayOfYear % 30
    ensures dayOfYear < 0 ==> i <= 0
  {
    JsRem(dayOfYear, |Table|)
  }

  /** `getTodaysDua()` for the given day of the year: always an entry for a
      day count that is not negative (the source's count starts at 1). */
  function TodaysDua(dayOfYear: int): (r: Option<Dua>)
    ensures dayOfYear >= 0 ==> r == Some(Table[dayOfYear % 30])
    ensures r.Some? ==> r.value in Table
  {
    var i := DuaIndex(dayOfYear);
    if 0 <= i < |Table| then Some(Table[i]) else None
  }

  /** Days thirty apart show the same dua. */
  lemma Periodic(d: int)
    requires d >= 0
    ensures TodaysDua(d + 30) == TodaysDua(d)
  {
    assert (d + 30) % 30 == d % 30;
  }

  /** The next day shows the next dua, wrapping after the thirtieth. */
  lemma NextDayNextDua(d: int)
    requires d >= 0
    ensures DuaIndex(d + 1) == (DuaIndex(d) + 1) % 30
  {
    var q := d / 30;
    var r := d % 30;
    assert d == 30 * q + r;
    if r < 29 {
      assert d + 1 == 30 * q + (r + 1);
    } else {
      assert d + 1 == 30 * (q + 1);
    }
  }
}
