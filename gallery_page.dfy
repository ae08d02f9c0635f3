/**
 * The public gallery (`app/gallery/page.tsx`): every uploaded model, fetched with the
 * signed-in user's token, and narrowed by a case-insensitive search over the model's
 * name, its uploader and its folder.
 */
module GalleryPage {
  import opened Wrappers
  import Text
  import Seqs
  import Browser

  /** The fields of a gallery entry the page searches and links with. */
  datatype GalleryModel = GalleryModel(
    id: int,
    name: string,
    folderId: int,
    folderName: string,
    uploaderUsername: string,
    uploaderName: string,
    uploaderOrganization: Option<string>)

  /** `s.toLowerCase().includes(query)` for an already lower-cased query. */
  predicate FieldMatches(s: string, query: string)
  {
    Text.Contains(Text.ToLower(s), query)
  }

  /** The filter's test: the query occurs in the name, the uploader's username or name,
      the folder name, or an organization that is present and not empty. */
  predicate Matches(m: GalleryModel, query: string)
  {
    FieldMatches(m.name, query) || FieldMatches(m.uploaderUsername, query)
    || FieldMatches(m.uploaderName, query) || FieldMatches(m.folderName, query)
    || (m.uploaderOrganization.Some? && m.uploaderOrganization.value != ""
        && FieldMatches(m.uploaderOrganization.value, query))
  }

  /** `models.filter((model) => Matches(model, query))` */
  function Filter(models: seq<GalleryModel>, query: string): (r: seq<GalleryModel>)
    ensures Seqs.IsSubsequence(r, models)
    ensures forall m :: m in r <==> m in models && Matches(m, query)
  {
    if |models| == 0 then []
    else
      var rest := Filter(models[1..], query);
      assert models == [models[0]] + models[1..];
      if Matches(models[0], query) then
        Seqs.SubsequenceKeep(models[0], rest, models[1..]);
        [models[0]] + rest
      else
        Seqs.SubsequencePrepend(models[0], rest, models[1..]);
        rest
  }

  /** The filter is exactly `Array.filter`: each matching model is kept as often as it
      occurs, and each other model is dropped. */
  lemma {:induction false} FilterMultiset(models: seq<GalleryModel>, query: string)
    ensures forall m :: multiset(Filter(models, query))[m] == if Matches(m, query) then multiset(models)[m] else 0
  {
    if |models| > 0 {
      FilterMultiset(models[1..], query);
      assert models == [models[0]] + models[1..];
    }
  }

  /** The search effect: a blank query shows every model; any other query is lower-cased
      (but not trimmed) and filters. */
  function SearchFilter(models: seq<GalleryModel>, searchQuery: string): seq<GalleryModel>
  {
    if Text.Trim(searchQuery) == "" then models else Filter(models, Text.ToLower(searchQuery))
  }

  /** The filtered list keeps the models' order and is never longer, so "Showing n of m"
      has n <= m; a blank query keeps everything, any other keeps exactly the matches. */
  lemma SearchFilterSpec(models: seq<GalleryModel>, searchQuery: string)
    ensures Seqs.IsSubsequence(SearchFilter(models, searchQuery), models)
    ensures |SearchFilter(models, searchQuery)| <= |models|
    ensures Text.IsBlank(searchQuery) ==> SearchFilter(models, searchQuery) == models
    ensures !Text.IsBlank(searchQuery) ==>
      forall m :: m in SearchFilter(models, searchQuery) <==> m in models && Matches(m, Text.ToLower(searchQuery))
  {
    Text.TrimEmptyIffBlank(searchQuery);
    SubsequenceOfItself(models);
    Seqs.SubsequenceBounds(SearchFilter(models, searchQuery), models);
  }

  lemma {:induction false} SubsequenceOfItself(models: seq<GalleryModel>)
    ensures Seqs.IsSubsequence(models, models)
  {
    if |models| > 0 {
      SubsequenceOfItself(models[1..]);
    }
  }

  /** Letter case does not matter on either side: a query matches a field exactly when its
      upper-cased form does. */
  lemma QueryCaseIgnored(m: GalleryModel, query: string)
    ensures Matches(m, Text.ToLower(query)) <==> Matches(m, Text.ToLower(Text.ToUpper(query)))
  {
    LowerOfUpper(query);
  }

  lemma LowerOfUpper(s: string)
    ensures Text.ToLower(Text.ToUpper(s)) == Text.ToLower(s)
  {
    assert forall i :: 0 <= i < |s| ==> Text.LowerChar(Text.UpperChar(s[i])) == Text.LowerChar(s[i]);
  }

  /** `GalleryContent`'s state. */
  class Page {
    var models: seq<GalleryModel>
    var filteredModels: seq<GalleryModel>
    var loading: bool
    var searchQuery: string

    /** The search effect runs after every change of `models` or `searchQuery`. */
    ghost predicate Valid()
      reads this
    {
      filteredModels == SearchFilter(models, searchQuery)
    }

    constructor ()
      ensures Valid()
      ensures models == [] && filteredModels == [] && loading && searchQuery == ""
    {
      models := [];
      filteredModels := [];
      loading := true;
      searchQuery := "";
    }

    /** The search field's `onChange`, followed by the search effect. */
    method SetSearchQuery(q: string)
      modifies this
      ensures Valid()
      ensures searchQuery == q && filteredModels == SearchFilter(models, q)
      ensures models == old(models) && loading == old(loading)
    {
      searchQuery := q;
      filteredModels := SearchFilter(models, q);
    }

    /** `fetchAllModels`, given the browser's storage and what the request returned (only
        used when a token is present). It returns the storage afterwards and the route the
        page is sent to, if any; the loading flag is cleared on every path. */
    method FetchAllModels(storage: Browser.Storage, response: Browser.Fetched<seq<GalleryModel>>)
      returns (storageAfter: Browser.Storage, route: Option<string>)
      requires Valid()
      modifies this
      ensures Valid() && !loading && searchQuery == old(searchQuery)
      ensures !Browser.HasItem(storage, Browser.AUTH_TOKEN) ==>
        route == Some("/auth") && storageAfter == storage && models == old(models)
      ensures Browser.HasItem(storage, Browser.AUTH_TOKEN) && response.Response? && response.status == 401 ==>
        route == Some("/auth") && storageAfter == Browser.ClearSession(storage) && models == old(models)
      ensures Browser.HasItem(storage, Browser.AUTH_TOKEN) && response.Response? && response.status != 401
              && Browser.IsOk(response.status) && response.body.Some? ==>
        route.None? && storageAfter == storage && models == response.body.value
      ensures Browser.HasItem(storage, Browser.AUTH_TOKEN)
              && (response.NetworkError? || (response.status != 401 && (!Browser.IsOk(response.status) || response.body.None?))) ==>
        route.None? && storageAfter == storage && models == old(models)
    {
      loading := true;
      storageAfter := storage;
      route := None;
      if !Browser.HasItem(storage, Browser.AUTH_TOKEN) {
        route := Some("/auth");
      } else if response.Response? && response.status == 401 {
        storageAfter := Browser.ClearSession(storage);
        route := Some("/auth");
      } else if response.Response? && Browser.IsOk(response.status) && response.body.Some? {
        models := response.body.value;
        filteredModels := response.body.value;
        filteredModels := SearchFilter(models, searchQuery);
      }
      loading := false;
    }
  }
}
