/**
 * Polish locative forms of country names (src/lib/countryLocatives.ts), used in phrases such
 * as "w Polsce": a fixed table and a lookup that falls back to the name itself.
 */
module CountryLocatives {

  /** `countryLocatives`. */
  const Locatives: map<string, string> := map[
    "Albania" := "Albanii",
    "Austria" := "Austrii",
    "Czechy" := "Czechach",
    "Czarnogóra" := "Czarnogórze",
    "Francja" := "Francji",
    "Grecja" := "Grecji",
    "Irlandia" := "Irlandii",
    "Jordan" := "Jordanii",
    "Kolumbia" := "Kolumbii",
    "Litwa" := "Litwie",
    "Luksemburg" := "Luksemburgu",
    "Meksyk" := "Meksyku",
    "Niemcy" := "Niemczech",
    "Polska" := "Polsce",
    "Portugalia" := "Portugali",
    "Słowacja" := "Słowacji",
    "Słowenia" := "Słowenii",
    "Szwecja" := "Szwecji",
    "Tajlandia" := "Tajlandii",
    "Tunezja" := "Tunezji",
    "Węgry" := "Węgrzech",
    "Włochy" := "Włoszech"
  ]

  /** Every form in the table is non-empty, so `||` never falls through on a listed name. */
  lemma LocativesNonEmpty()
    ensures forall name :: name in Locatives ==> |Locatives[name]| > 0
  {
  }

  /** `toLocative`: `countryLocatives[countryName] || countryName`. */
  function ToLocative(countryName: string): (r: string)
    ensures countryName in Locatives ==> r == Locatives[countryName]
    ensures countryName !in Locatives ==> r == countryName
    ensures |countryName| > 0 ==> |r| > 0
  {
    LocativesNonEmpty();
    if countryName in Locatives && Locatives[countryName] != "" then Locatives[countryName]
    else countryName
  }

  lemma PolskaLocative()
    ensures ToLocative("Polska") == "Polsce"
  {
  }

  /** The lookup is exact: a differently cased name is not found and comes back as it is. */
  lemma LowerCasePolskaUnchanged()
    ensures ToLocative("polska") == "polska"
  {
    assert "polska" !in Locatives;
  }
}
