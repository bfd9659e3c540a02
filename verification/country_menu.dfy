/**
 * The country menu (ViewComponents/CountryMenuViewComponent.cs): from the
 * catalogue's country list keep the popular ones, ordered as the popular
 * list orders them.
 */
module CountryMenu {
  import opened Wrappers
  import opened Text
  import opened Catalog
  import opened Seqs

  const PopularSlugs: seq<string> := [
    "trung-quoc", "han-quoc", "nhat-ban", "thai-lan", "my", "au-my",
    "hong-kong", "an-do", "phap", "anh", "dai-loan", "philippines"
  ]

  /** `List.IndexOf`: the first position of `s`, or -1. */
  function IndexOf(list: seq<string>, s: string): (r: int)
    ensures -1 <= r < |list|
    ensures r >= 0 ==> list[r] == s && forall j :: 0 <= j < r ==> list[j] != s
    ensures r == -1 <==> s !in list
  {
    IndexWhere(list, x => x == s)
  }

  /** The `Where` condition: a slug that, lower-cased, is a popular one. */
  predicate IsPopular(c: Category) {
    c.slug.Some? && ToLower(c.slug.value) in PopularSlugs
  }

  /** The `OrderBy` key: the lower-cased slug's position in the popular list. */
  function Rank(c: Category): (r: int)
    ensures r < |PopularSlugs|
    ensures r >= 0 <==> IsPopular(c)
    ensures r >= 0 ==> PopularSlugs[r] == ToLower(c.slug.value)
  {
    if c.slug.Some? then IndexOf(PopularSlugs, ToLower(c.slug.value)) else -1
  }

  /** The menu's countries; a missing list gives an empty menu. */
  function PopularCountries(countries: Option<seq<Category>>): (r: seq<Category>)
    ensures countries.None? ==> r == []
    ensures forall i :: 0 <= i < |r| ==> IsPopular(r[i])
    ensures SortedBy(r, Rank)
  {
    if countries.None? then []
    else
      var popular := Filter(countries.value, IsPopular);
      SortByKeeps(popular, Rank, IsPopular);
      SortBy(popular, Rank)
  }

  /** The menu is drawn from the input: a sub-multiset of it, so never longer. */
  lemma MenuFromInput(countries: seq<Category>)
    ensures multiset(PopularCountries(Some(countries))) <= multiset(countries)
    ensures |PopularCountries(Some(countries))| <= |countries|
  {
    FilterSubset(countries, IsPopular);
  }

  /** Every popular country of the input is on the menu. */
  lemma MenuComplete(countries: seq<Category>, c: Category)
    requires c in countries && IsPopular(c)
    ensures c in PopularCountries(Some(countries))
  {
    FilterKeeps(countries, IsPopular, c);
    assert c in multiset(Filter(countries, IsPopular));
  }

  /**
   * Countries of equal rank keep their input order (`OrderBy` is stable):
   * the menu entries of rank `k` are exactly the input's, in the input's order.
   */
  lemma {:induction false} MenuStable(countries: seq<Category>, k: int)
    requires k >= 0
    ensures Filter(PopularCountries(Some(countries)), KeyIs(Rank, k)) == Filter(countries, KeyIs(Rank, k))
  {
    SortByStable(Filter(countries, IsPopular), Rank, k);
    FilterNarrow(countries, IsPopular, KeyIs(Rank, k));
  }
}
