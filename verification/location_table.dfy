/**
  The location translation table of the bundler and its lookup: a resolved URL
  that ends with a known file name is read from the mapped canonical URL instead.
  Keys are visited in table order and the first suffix match wins.
 */
module LocationTable {
  import opened Wrappers
  import opened Strings

  /** One row of the table: a file-name suffix and the URL that replaces it. */
  datatype Entry = Entry(key: string, location: string)

  /** The table in the order its keys are enumerated. */
  type Table = seq<Entry>

  const HttpResponsesKey: string := "http-responses-v2.yaml"
  const HttpResponsesLocation: string :=
    "https://gitlab.gk.gk-software.com/rest-apis/common-rest-api/-/blob/master/src/main/resources/openapi/http-responses-v2.yaml?ref_type=heads"
  const CustomDtoKey: string := "xxcustom-dto-v3.yaml"
  const CustomDtoLocation: string :=
    "https://gitlab.gk.gk-software.com/product/domains/basket-calculation/pricing-engine/promotion-domain-common-api/-/blob/master/src/main/resources/openapi/common/xxcustom-dto-v3.yaml?ref_type=heads"
  const ProblemDtoKey: string := "problem-dto-v2.yaml"
  const ProblemDtoLocation: string :=
    "https://gitlab.gk.gk-software.com/product/domains/basket-calculation/pricing-engine/promotion-domain-common-api/-/blob/master/src/main/resources/openapi/common/problem-dto-v2.yaml?ref_type=heads"
  const RecalculateCommonKey: string := "recalculate-transaction-service-api-v2-common.yaml"
  const RecalculateCommonLocation: string :=
    "https://gitlab.gk.gk-software.com/product/domains/basket-calculation/pricing-engine/promotion-domain-common-api/-/blob/master/src/main/resources/openapi/recalculate-transaction-service-api-v2-common.yaml?ref_type=heads"
  const PromotionDtoKey: string := "pce-promotion-dto-v1.yaml"
  const PromotionDtoLocation: string :=
    "https://gitlab.gk.gk-software.com/rest-apis/promotion-rest-api/-/blob/master/src/main/resources/openapi/pce-promotion-dto-v1.yaml?ref_type=heads"

  /** The literal `translateLocations` table of `bundle.ts`, in declaration order. */
  const TranslateLocations: Table := [
    Entry(HttpResponsesKey, HttpResponsesLocation),
    Entry(CustomDtoKey, CustomDtoLocation),
    Entry(ProblemDtoKey, ProblemDtoLocation),
    Entry(RecalculateCommonKey, RecalculateCommonLocation),
    Entry(PromotionDtoKey, PromotionDtoLocation)
  ]

  /** Row `i` is the first row whose key is a suffix of `url`. */
  predicate FirstMatchAt(url: string, table: Table, i: int) {
    && 0 <= i < |table|
    && EndsWith(url, table[i].key)
    && forall j :: 0 <= j < i ==> !EndsWith(url, table[j].key)
  }

  /** No key of the table is a suffix of `url`. */
  predicate NoKeyMatches(url: string, table: Table) {
    forall j :: 0 <= j < |table| ==> !EndsWith(url, table[j].key)
  }

  /** `r` is what `url` translates to: the first matching row's location, or `url` itself. */
  predicate IsTranslation(url: string, table: Table, r: string) {
    || (exists i :: 0 <= i < |table| && FirstMatchAt(url, table, i) && r == table[i].location)
    || (NoKeyMatches(url, table) && r == url)
  }

  /** The row a lookup of `url` stops at, if any. */
  function FirstMatch(url: string, table: Table): (m: Option<nat>)
    ensures m.Some? ==> FirstMatchAt(url, table, m.value)
    ensures m.None? ==> NoKeyMatches(url, table)
  {
    if |table| == 0 then None
    else if EndsWith(url, table[0].key) then Some(0)
    else match FirstMatch(url, table[1..])
      case None => None
      case Some(i) => Some(i + 1)
  }

  /** The URL actually read for a resolved `url`. */
  function Translate(url: string, table: Table): (r: string)
    ensures IsTranslation(url, table, r)
  {
    match FirstMatch(url, table)
    case Some(i) => table[i].location
    case None => url
  }

  /** A translation is determined by the URL and the table. */
  lemma TranslationUnique(url: string, table: Table, r1: string, r2: string)
    requires IsTranslation(url, table, r1) && IsTranslation(url, table, r2)
    ensures r1 == r2
  {
    if i1 :| FirstMatchAt(url, table, i1) && r1 == table[i1].location {
      var i2 :| FirstMatchAt(url, table, i2) && r2 == table[i2].location;
      assert !(i1 < i2) && !(i2 < i1);
    }
  }

  /** An empty table translates nothing. */
  lemma EmptyTableKeepsUrl(url: string)
    ensures Translate(url, []) == url
  {
  }

  /** No key of the table is a suffix of another row's key. */
  predicate SuffixFree(table: Table) {
    forall i, j :: 0 <= i < |table| && 0 <= j < |table| && i != j ==> !EndsWith(table[i].key, table[j].key)
  }

  /** In a suffix-free table at most one row matches any URL. */
  lemma AtMostOneMatch(url: string, table: Table, i: int, j: int)
    requires SuffixFree(table)
    requires 0 <= i < |table| && 0 <= j < |table|
    requires EndsWith(url, table[i].key) && EndsWith(url, table[j].key)
    ensures i == j
  {
    if i != j {
      if |table[i].key| <= |table[j].key| {
        SuffixesNest(url, table[i].key, table[j].key);
      } else {
        SuffixesNest(url, table[j].key, table[i].key);
      }
    }
  }

  /**
    In a suffix-free table the translation depends only on which rows the table
    holds, not on their order: a URL ending with a row's key reads that row's location.
   */
  lemma SuffixFreeTranslation(url: string, table: Table, e: Entry)
    requires SuffixFree(table)
    requires e in table && EndsWith(url, e.key)
    ensures Translate(url, table) == e.location
  {
    var i :| 0 <= i < |table| && table[i] == e;
    var r := Translate(url, table);
    if k :| FirstMatchAt(url, table, k) && r == table[k].location {
      AtMostOneMatch(url, table, i, k);
    }
  }

  /**
    Any table holding the same rows as a suffix-free table, in any order and
    with any repetitions, translates every URL alike.
   */
  lemma TranslateOrderIndependent(url: string, t1: Table, t2: Table)
    requires SuffixFree(t1)
    requires forall e :: e in t1 <==> e in t2
    ensures Translate(url, t1) == Translate(url, t2)
  {
    match FirstMatch(url, t2)
    case Some(k) =>
      assert t2[k] in t1;
      SuffixFreeTranslation(url, t1, t2[k]);
    case None =>
      assert NoKeyMatches(url, t1) by {
        forall j | 0 <= j < |t1| ensures !EndsWith(url, t1[j].key) {
          assert t1[j] in t2;
        }
      }
  }

  /** `a` is not a suffix of `b`, shown by one differing character. */
  lemma NotSuffix(b: string, a: string, d: nat)
    requires d < |a| <= |b|
    requires b[|b| - |a| + d] != a[d]
    ensures !EndsWith(b, a)
  {
    assert b[|b| - |a|..][d] == b[|b| - |a| + d];
  }

  /** The keys of the literal table, in order. */
  function KnownKey(i: int): string
    requires 0 <= i < 5
  {
    [HttpResponsesKey, CustomDtoKey, ProblemDtoKey, RecalculateCommonKey, PromotionDtoKey][i]
  }

  /** One pair of literal keys; a pair whose candidate suffix is longer fails on length alone. */
  lemma KnownKeyNotSuffix(i: int, j: int)
    requires 0 <= i < 5 && 0 <= j < 5 && i != j
    ensures !EndsWith(KnownKey(i), KnownKey(j))
  {
    if i == 0 && j == 1 { NotSuffix(HttpResponsesKey, CustomDtoKey, 14); }
    else if i == 0 && j == 2 { NotSuffix(HttpResponsesKey, ProblemDtoKey, 1); }
    else if i == 1 && j == 2 { NotSuffix(CustomDtoKey, ProblemDtoKey, 13); }
    else if i == 3 && j == 0 { NotSuffix(RecalculateCommonKey, HttpResponsesKey, 16); }
    else if i == 3 && j == 1 { NotSuffix(RecalculateCommonKey, CustomDtoKey, 14); }
    else if i == 3 && j == 2 { NotSuffix(RecalculateCommonKey, ProblemDtoKey, 13); }
    else if i == 3 && j == 4 { NotSuffix(RecalculateCommonKey, PromotionDtoKey, 19); }
    else if i == 4 && j == 0 { NotSuffix(PromotionDtoKey, HttpResponsesKey, 16); }
    else if i == 4 && j == 1 { NotSuffix(PromotionDtoKey, CustomDtoKey, 14); }
    else if i == 4 && j == 2 { NotSuffix(PromotionDtoKey, ProblemDtoKey, 13); }
  }

  /** No key of the literal table is a suffix of another. */
  lemma TranslateLocationsSuffixFree()
    ensures SuffixFree(TranslateLocations)
  {
    forall i, j | 0 <= i < |TranslateLocations| && 0 <= j < |TranslateLocations| && i != j
      ensures !EndsWith(TranslateLocations[i].key, TranslateLocations[j].key)
    {
      KnownKeyNotSuffix(i, j);
      assert TranslateLocations[i].key == KnownKey(i);
      assert TranslateLocations[j].key == KnownKey(j);
    }
  }

  /** At most one known location matches any URL, so the table's order does not matter. */
  lemma KnownLocationsUnique(url: string, i: int, j: int)
    requires 0 <= i < |TranslateLocations| && 0 <= j < |TranslateLocations|
    requires EndsWith(url, TranslateLocations[i].key) && EndsWith(url, TranslateLocations[j].key)
    ensures i == j
  {
    TranslateLocationsSuffixFree();
    AtMostOneMatch(url, TranslateLocations, i, j);
  }

  /** Reordering the rows of the bundler's table, or repeating some of them, changes no translation. */
  lemma LiteralOrderIndependent(url: string, t: Table)
    requires forall e :: e in t <==> e in TranslateLocations
    ensures Translate(url, t) == Translate(url, TranslateLocations)
  {
    TranslateLocationsSuffixFree();
    TranslateOrderIndependent(url, TranslateLocations, t);
  }

  /** A URL ending with `http-responses-v2.yaml` is read from the canonical location. */
  lemma HttpResponsesTranslated(url: string)
    requires EndsWith(url, HttpResponsesKey)
    ensures Translate(url, TranslateLocations) == HttpResponsesLocation
  {
    assert TranslateLocations[0].key == HttpResponsesKey;
  }
}
