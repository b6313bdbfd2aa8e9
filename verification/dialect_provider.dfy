/** `GherkinDialectProvider`: looks dialects up by language code in the
    registry of keyword tables and lists the codes it knows.

    The registry is read once from a JSON resource when the class is loaded;
    here it is the `dialects` field of the provider, a value given by the
    caller. A JSON `null` stored under a code reads back as `null` from the
    map, exactly like a missing code, so the registry maps each code to an
    `Option`. */
module GherkinDialectProvider {
  import opened Results
  import opened JavaString

  /** A dialect's keyword table: keyword kind (`feature`, `given`, ...) to
      the keywords of that kind. */
  type Keywords = map<JString, seq<JString>>

  /** Language code to keyword table; `None` is a code whose entry is `null`. */
  type Registry = map<JString, Option<Keywords>>

  /** A position in a feature file, for error reports. */
  datatype Location = Location(line: int, column: int)

  datatype GherkinDialect = GherkinDialect(language: JString, keywords: Keywords)

  /** `ParserException.NoSuchLanguageException`; `None` is a `null` location. */
  datatype NoSuchLanguage = NoSuchLanguageException(language: JString, location: Option<Location>)

  datatype Provider = Provider(dialects: Registry, defaultDialectName: JString)

  /** The language code `"en"`. */
  const EN: JString := [0x65, 0x6E]

  /** `language` has a keyword table in the registry. */
  predicate Knows(dialects: Registry, language: JString) {
    language in dialects && dialects[language].Some?
  }

  // ---------------------------------------------------------------------
  // Construction
  // ---------------------------------------------------------------------

  /** `new GherkinDialectProvider(defaultDialectName)`: the name is stored
      as given and not checked against the registry. */
  function NewProvider(dialects: Registry, defaultDialectName: JString): (p: Provider)
    ensures p.dialects == dialects && p.defaultDialectName == defaultDialectName
  {
    Provider(dialects, defaultDialectName)
  }

  /** `new GherkinDialectProvider()`: the default dialect is English. */
  function DefaultProvider(dialects: Registry): (p: Provider)
    ensures p.dialects == dialects && p.defaultDialectName == EN
  {
    NewProvider(dialects, EN)
  }

  // ---------------------------------------------------------------------
  // Lookup
  // ---------------------------------------------------------------------

  /** `getDialect(language, location)`: the dialect for a known code, the
      exception naming the code and the location otherwise. */
  function GetDialect(p: Provider, language: JString, location: Option<Location>): (r: Result<GherkinDialect, NoSuchLanguage>)
    ensures r.Success? <==> Knows(p.dialects, language)
    ensures r.Success? ==> r.value.language == language && p.dialects[language] == Some(r.value.keywords)
    ensures r.Failure? ==> r.error == NoSuchLanguageException(language, location)
  {
    if language in p.dialects then
      match p.dialects[language]
      case Some(keywords) => Success(GherkinDialect(language, keywords))
      case None => Failure(NoSuchLanguageException(language, location))
    else Failure(NoSuchLanguageException(language, location))
  }

  /** `getDefaultDialect()`: the lookup of the default name, with no
      location. */
  function GetDefaultDialect(p: Provider): (r: Result<GherkinDialect, NoSuchLanguage>)
    ensures r.Success? <==> Knows(p.dialects, p.defaultDialectName)
    ensures r.Success? ==> r.value.language == p.defaultDialectName
    ensures r.Failure? ==> r.error == NoSuchLanguageException(p.defaultDialectName, None)
  {
    GetDialect(p, p.defaultDialectName, None)
  }

  /** The location only shows up in the exception: a successful lookup is
      the same wherever it was asked for, and a failed one differs only in
      the location it reports. */
  lemma LocationIrrelevant(p: Provider, language: JString, a: Option<Location>, b: Option<Location>)
    ensures GetDialect(p, language, a).Success? <==> GetDialect(p, language, b).Success?
    ensures GetDialect(p, language, a).Success? ==> GetDialect(p, language, a) == GetDialect(p, language, b)
    ensures GetDialect(p, language, a).Failure? ==>
      GetDialect(p, language, a).error.language == GetDialect(p, language, b).error.language
  {
  }

  /** The default dialect is the dialect of the default name: looking it up
      directly gives the same dialect, and the same exception apart from the
      location. */
  lemma DefaultDialectIsLookup(p: Provider, location: Option<Location>)
    ensures GetDefaultDialect(p).Success? ==> GetDefaultDialect(p) == GetDialect(p, p.defaultDialectName, location)
    ensures GetDefaultDialect(p).Failure? ==> GetDialect(p, p.defaultDialectName, location).Failure?
  {
    LocationIrrelevant(p, p.defaultDialectName, None, location);
  }

  /** The no-argument provider serves English whenever the registry has it,
      and fails with `"en"` and no location otherwise. */
  lemma DefaultProviderServesEnglish(dialects: Registry)
    ensures GetDefaultDialect(DefaultProvider(dialects)).Success? <==> Knows(dialects, EN)
    ensures Knows(dialects, EN) ==>
      GetDefaultDialect(DefaultProvider(dialects)) == Success(GherkinDialect(EN, dialects[EN].value))
    ensures !Knows(dialects, EN) ==>
      GetDefaultDialect(DefaultProvider(dialects)) == Failure(NoSuchLanguageException(EN, None))
  {
  }

  // ---------------------------------------------------------------------
  // Listing the languages
  // ---------------------------------------------------------------------

  /** `s` is in increasing `compareTo` order without repeats. */
  predicate StrictlySorted(s: seq<JString>) {
    forall i, j :: 0 <= i < j < |s| ==> Less(s[i], s[j])
  }

  /** `x` put into its place in the sorted `s`. */
  function Insert(s: seq<JString>, x: JString): (r: seq<JString>)
    requires StrictlySorted(s) && x !in s
    ensures |r| == |s| + 1
    ensures forall y :: y in r <==> y in s || y == x
    ensures StrictlySorted(r)
  {
    if |s| == 0 then [x]
    else if Less(x, s[0]) then
      assert forall j :: 0 < j < |s| ==> Less(x, s[j]) by {
        forall j | 0 < j < |s| {
          LessTransitive(x, s[0], s[j]);
        }
      }
      [x] + s
    else
      LessTotal(x, s[0]);
      assert forall j :: 0 < j < |s| ==> s[j] in s[1..];
      var tail := Insert(s[1..], x);
      forall j | 0 <= j < |tail|
        ensures Less(s[0], tail[j])
      {
        assert tail[j] in tail;
        if tail[j] != x {
          var i :| 0 <= i < |s[1..]| && s[1..][i] == tail[j];
          assert s[1..][i] == s[i + 1];
        }
      }
      [s[0]] + tail
  }

  /** Two strictly sorted sequences with the same elements start alike: each
      head is the least element of both. */
  lemma SortedSameHead(a: seq<JString>, b: seq<JString>)
    requires StrictlySorted(a) && StrictlySorted(b) && |a| > 0 && |b| > 0
    requires forall y :: y in a <==> y in b
    ensures a[0] == b[0]
  {
    assert a[0] in b && b[0] in a;
    var j :| 0 <= j < |b| && b[j] == a[0];
    var i :| 0 <= i < |a| && a[i] == b[0];
    if j != 0 && i != 0 {
      LessTotal(a[0], b[0]);
      assert false;
    }
  }

  /** Strictly sorted sequences are fixed by their elements: sorting a set of
      codes has one outcome. */
  lemma {:induction false} StrictlySortedUnique(a: seq<JString>, b: seq<JString>)
    requires StrictlySorted(a) && StrictlySorted(b)
    requires forall y :: y in a <==> y in b
    ensures a == b
  {
    assert |a| == 0 || a[0] in b;
    assert |b| == 0 || b[0] in a;
    if |a| > 0 {
      SortedSameHead(a, b);
      forall y
        ensures y in a[1..] <==> y in b[1..]
      {
        if y in a[1..] {
          var j :| 1 <= j < |a| && a[j] == y;
          LessTotal(a[0], a[j]);
          assert y in b;
        }
        if y in b[1..] {
          var j :| 1 <= j < |b| && b[j] == y;
          LessTotal(b[0], b[j]);
          assert y in a;
        }
      }
      StrictlySortedUnique(a[1..], b[1..]);
      assert a == [a[0]] + a[1..] && b == [b[0]] + b[1..];
    }
  }

  /** `getLanguages()`: every code of the registry, including those whose
      entry is `null`, once each, sorted by `compareTo`. */
  method GetLanguages(p: Provider) returns (languages: seq<JString>)
    ensures StrictlySorted(languages)
    ensures forall y :: y in languages <==> y in p.dialects
    ensures |languages| == |p.dialects|
  {
    languages := [];
    var rest := p.dialects.Keys;
    while rest != {}
      invariant StrictlySorted(languages)
      invariant rest <= p.dialects.Keys
      invariant forall y :: y in languages <==> y in p.dialects && y !in rest
      invariant |languages| + |rest| == |p.dialects|
      decreases |rest|
    {
      var x :| x in rest;
      languages := Insert(languages, x);
      rest := rest - {x};
    }
  }

  /** Every listed code that has a keyword table can be looked up, and no
      other code can: the listing and the lookup agree on the registry. */
  lemma ListedLanguagesResolve(p: Provider, languages: seq<JString>, language: JString, location: Option<Location>)
    requires forall y :: y in languages <==> y in p.dialects
    ensures GetDialect(p, language, location).Success? ==> language in languages
    ensures language in languages ==>
      (GetDialect(p, language, location).Success? <==> p.dialects[language].Some?)
  {
  }
}
