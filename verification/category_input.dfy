/**
  The category input's suggestion logic (`ve.ui.MWCategoryInputWidget`): it
  folds a server response into a title-to-hidden dictionary and a redirect
  table, groups the suggestions into new / already in the article / matching /
  hidden, and renders the groups as a menu.

  The wiki's title library, case mapping and configuration are parameters
  (`Env`). The grouping and the menu are the source's as written, including
  four quirks the lemmas below state: the in-article scan stops before the last existing
  category; that scan consults the redirect table under the key "undefined"
  (its title variable is never assigned there); in the matching and hidden
  scans a redirect hit lists a suggestion even when it is already in the
  article; and a redirect seen twice resets its list to that one source.
  `MenuItemsFromDataIntended` renders the grouping with the first quirk
  corrected.
 */
module CategoryInput {
  import opened Wrappers
  import opened Text
  import opened OrderedMaps

  /** A valid title as the title library normalises it. */
  datatype Title = Title(prefixedText: string, mainText: string)

  /** What the widget takes from the wiki. */
  datatype Env = Env(
    newFromText: string -> Option<Title>,  // `mw.Title.newFromText`: None for an invalid title
    prefixedText: string -> string,        // `new mw.Title( s ).getPrefixedText()`
    mainText: string -> string,            // `new mw.Title( s ).getMainText()`
    upper: string -> string,               // `String.prototype.toUpperCase`
    categoryPrefix: string,                // the category namespace's local name followed by ":"
    forceCapitalization: bool)             // the category namespace is not case-sensitive

  /* ---------- The server response ---------- */

  datatype PageProps = PageProps(hiddencat: Option<string>)
  datatype PageInfo = PageInfo(title: string, pageprops: Option<PageProps>)
  datatype RedirectInfo = RedirectInfo(from: string, to: string)
  /** `data.query`; pages are listed in the order the response enumerates them. */
  datatype QueryResult = QueryResult(pages: Option<seq<PageInfo>>, redirects: Option<seq<RedirectInfo>>)
  datatype Response = Response(query: Option<QueryResult>)

  /** A page is a hidden category when it has page properties and `hiddencat` is among them. */
  predicate IsHidden(p: PageInfo) {
    p.pageprops.Some? && p.pageprops.value.hiddencat.Some?
  }

  /** The widget's redirect table: target title to the redirect titles leading to it. */
  type Redirects = map<string, seq<string>>

  predicate NoDuplicates(s: seq<string>) {
    forall i, j :: 0 <= i < j < |s| ==> s[i] != s[j]
  }

  predicate ListsDistinct(m: Redirects) {
    forall k :: k in m ==> NoDuplicates(m[k])
  }

  /** What `getLookupCacheItemFromData` produces and updates. */
  datatype Cache = Cache(
    result: OrderedMap<bool>,          // the returned object: main text to hidden status
    hiddenStatus: map<string, bool>,   // the category widget's table, by page title
    redirects: Redirects,              // the widget's redirect table
    warnings: seq<string>)             // messages logged for invalid titles

  function InvalidTitleWarning(title: string): string {
    "\"" + title + "\" is an invalid title!"
  }

  /** `pages` holds a page whose title is valid and normalises to main text `k`. */
  predicate NamesPage(env: Env, p: PageInfo, k: string) {
    env.newFromText(p.title).Some? && env.newFromText(p.title).value.mainText == k
  }

  /** One page of the response. */
  function ReadPage(acc: Cache, p: PageInfo, env: Env): Cache {
    match env.newFromText(p.title)
    case Some(t) =>
      acc.(result := Put(acc.result, t.mainText, IsHidden(p)),
           hiddenStatus := acc.hiddenStatus[p.title := IsHidden(p)])
    case None =>
      acc.(warnings := acc.warnings + [InvalidTitleWarning(p.title)])
  }

  /** The pages of the response, in order. */
  function ReadPages(acc: Cache, pages: seq<PageInfo>, env: Env): Cache
    decreases |pages|
  {
    if |pages| == 0 then acc
    else ReadPage(ReadPages(acc, pages[..|pages| - 1], env), pages[|pages| - 1], env)
  }

  /** Pages never touch the redirect table. */
  lemma {:induction false} ReadPagesKeepsRedirects(acc: Cache, pages: seq<PageInfo>, env: Env)
    ensures ReadPages(acc, pages, env).redirects == acc.redirects
    decreases |pages|
  {
    if |pages| > 0 {
      ReadPagesKeepsRedirects(acc, pages[..|pages| - 1], env);
    }
  }

  /** One page adds its main text to the dictionary's keys when its title is valid, and nothing else. */
  lemma ReadPageKeys(acc: Cache, p: PageInfo, env: Env, k: string)
    ensures k in Keys(ReadPage(acc, p, env).result) <==> k in Keys(acc.result) || NamesPage(env, p, k)
  {
    if env.newFromText(p.title).Some? {
      var t := env.newFromText(p.title).value;
      var r := Put(acc.result, t.mainText, IsHidden(p));
      assert ReadPage(acc, p, env).result == r;
      assert k in Keys(r) <==> k in Keys(acc.result) || k == t.mainText;
    }
  }

  /** Some page among `pages` has a valid title normalising to `k`. */
  predicate SomePageNames(pages: seq<PageInfo>, env: Env, k: string) {
    exists i :: 0 <= i < |pages| && NamesPage(env, pages[i], k)
  }

  lemma SomePageNamesSnoc(pages: seq<PageInfo>, env: Env, k: string)
    requires |pages| > 0
    ensures SomePageNames(pages, env, k) <==>
      SomePageNames(pages[..|pages| - 1], env, k) || NamesPage(env, pages[|pages| - 1], k)
  {
    var n := |pages| - 1;
    var front := pages[..n];
    if SomePageNames(front, env, k) {
      var i :| 0 <= i < n && NamesPage(env, front[i], k);
      assert pages[i] == front[i];
    }
    if SomePageNames(pages, env, k) {
      var i :| 0 <= i < |pages| && NamesPage(env, pages[i], k);
      if i < n {
        assert front[i] == pages[i];
      }
    }
  }

  /** The returned dictionary holds a main text exactly when some page with a valid title normalises to it; pages with invalid titles add nothing. */
  lemma {:induction false} ReadPagesKeys(acc: Cache, pages: seq<PageInfo>, env: Env, k: string)
    ensures k in Keys(ReadPages(acc, pages, env).result) <==> k in Keys(acc.result) || SomePageNames(pages, env, k)
    decreases |pages|
  {
    if |pages| > 0 {
      var n := |pages| - 1;
      var front := pages[..n];
      var prev := ReadPages(acc, front, env);
      assert ReadPages(acc, pages, env) == ReadPage(prev, pages[n], env);
      ReadPagesKeys(acc, front, env, k);
      ReadPageKeys(prev, pages[n], env, k);
      SomePageNamesSnoc(pages, env, k);
    }
  }

  /** The value stored under a main text is the hidden status of the last page naming it. */
  lemma {:induction false} ReadPagesLastWins(acc: Cache, pages: seq<PageInfo>, env: Env, k: string, i: nat)
    requires i < |pages| && NamesPage(env, pages[i], k)
    requires forall j :: i < j < |pages| ==> !NamesPage(env, pages[j], k)
    ensures Get(ReadPages(acc, pages, env).result, k) == Some(IsHidden(pages[i]))
    decreases |pages|
  {
    var n := |pages| - 1;
    var front := pages[..n];
    var prev := ReadPages(acc, front, env);
    var p := pages[n];
    assert ReadPages(acc, pages, env) == ReadPage(prev, p, env);
    if i < n {
      assert front[i] == pages[i];
      assert forall j :: i < j < n ==> front[j] == pages[j];
      ReadPagesLastWins(acc, front, env, k, i);
      assert !NamesPage(env, p, k);
      if env.newFromText(p.title).Some? {
        var t := env.newFromText(p.title).value;
        assert t.mainText != k;
        assert ReadPage(prev, p, env).result == Put(prev.result, t.mainText, IsHidden(p));
      }
    } else {
      var t := env.newFromText(p.title).value;
      assert ReadPage(prev, p, env).result == Put(prev.result, k, IsHidden(p));
    }
  }

  /** One page adds a warning exactly when its title is invalid. */
  lemma ReadPageWarnings(acc: Cache, p: PageInfo, env: Env)
    ensures ReadPage(acc, p, env).warnings ==
      acc.warnings + (if env.newFromText(p.title).None? then [InvalidTitleWarning(p.title)] else [])
  {
  }

  /** A warning of the pages read so far: one for a page, among `pages`, whose title is invalid. */
  predicate WarnsAbout(pages: seq<PageInfo>, env: Env, m: string) {
    exists i :: 0 <= i < |pages| && env.newFromText(pages[i].title).None? && m == InvalidTitleWarning(pages[i].title)
  }

  lemma WarnsAboutSnoc(pages: seq<PageInfo>, env: Env, m: string)
    requires |pages| > 0
    ensures WarnsAbout(pages, env, m) <==>
      WarnsAbout(pages[..|pages| - 1], env, m)
      || (env.newFromText(pages[|pages| - 1].title).None? && m == InvalidTitleWarning(pages[|pages| - 1].title))
  {
    var n := |pages| - 1;
    var front := pages[..n];
    if WarnsAbout(front, env, m) {
      var i :| 0 <= i < n && env.newFromText(front[i].title).None? && m == InvalidTitleWarning(front[i].title);
      assert pages[i] == front[i];
    }
    if WarnsAbout(pages, env, m) {
      var i :| 0 <= i < |pages| && env.newFromText(pages[i].title).None? && m == InvalidTitleWarning(pages[i].title);
      if i < n {
        assert front[i] == pages[i];
      }
    }
  }

  /**
    The warnings of `pages` alone, page by page: the plain fold behind
    `InvalidTitleWarnings`, kept free of ensures so that proofs unfolding it
    stay within the solver's resource limit.
   */
  function WarningRows(pages: seq<PageInfo>, env: Env): seq<string>
    decreases |pages|
  {
    if |pages| == 0 then []
    else
      var n := |pages| - 1;
      WarningRows(pages[..n], env) + (if env.newFromText(pages[n].title).None? then [InvalidTitleWarning(pages[n].title)] else [])
  }

  lemma {:induction false} WarningRowsMembers(pages: seq<PageInfo>, env: Env)
    ensures |WarningRows(pages, env)| <= |pages|
    ensures forall m :: m in WarningRows(pages, env) <==> WarnsAbout(pages, env, m)
    decreases |pages|
  {
    if |pages| > 0 {
      WarningRowsMembers(pages[..|pages| - 1], env);
      forall m
        ensures m in WarningRows(pages, env) <==> WarnsAbout(pages, env, m)
      {
        WarnsAboutSnoc(pages, env, m);
      }
    }
  }

  /** One warning per page with an invalid title, in page order: `WarningRows` with its contract. */
  function InvalidTitleWarnings(pages: seq<PageInfo>, env: Env): (ws: seq<string>)
    ensures |ws| <= |pages|
    ensures forall m :: m in ws <==> WarnsAbout(pages, env, m)
  {
    WarningRowsMembers(pages, env);
    WarningRows(pages, env)
  }

  lemma {:induction false} ReadPagesWarningRows(acc: Cache, pages: seq<PageInfo>, env: Env)
    ensures ReadPages(acc, pages, env).warnings == acc.warnings + WarningRows(pages, env)
    decreases |pages|
  {
    if |pages| > 0 {
      var n := |pages| - 1;
      var prev := ReadPages(acc, pages[..n], env);
      assert ReadPages(acc, pages, env) == ReadPage(prev, pages[n], env);
      ReadPagesWarningRows(acc, pages[..n], env);
      ReadPageWarnings(prev, pages[n], env);
    }
  }

  /** Reading pages appends exactly the invalid-title warnings, one per such page, in page order, after the earlier warnings. */
  lemma ReadPagesWarnings(acc: Cache, pages: seq<PageInfo>, env: Env)
    ensures ReadPages(acc, pages, env).warnings == acc.warnings + InvalidTitleWarnings(pages, env)
  {
    ReadPagesWarningRows(acc, pages, env);
  }

  /** Some page among `pages` carries the valid title `t`. */
  predicate ValidPageTitled(pages: seq<PageInfo>, env: Env, t: string) {
    env.newFromText(t).Some? && exists i :: 0 <= i < |pages| && pages[i].title == t
  }

  /** The hidden-status part of the page fold: each page with a valid title records its status under that title. */
  function HiddenFold(h: map<string, bool>, pages: seq<PageInfo>, env: Env): map<string, bool>
    decreases |pages|
  {
    if |pages| == 0 then h
    else
      var n := |pages| - 1;
      var prev := HiddenFold(h, pages[..n], env);
      if env.newFromText(pages[n].title).Some? then prev[pages[n].title := IsHidden(pages[n])] else prev
  }

  lemma {:induction false} ReadPagesHiddenFold(acc: Cache, pages: seq<PageInfo>, env: Env)
    ensures ReadPages(acc, pages, env).hiddenStatus == HiddenFold(acc.hiddenStatus, pages, env)
    decreases |pages|
  {
    if |pages| > 0 {
      var n := |pages| - 1;
      var prev := ReadPages(acc, pages[..n], env);
      assert ReadPages(acc, pages, env) == ReadPage(prev, pages[n], env);
      ReadPagesHiddenFold(acc, pages[..n], env);
    }
  }

  lemma {:induction false} HiddenFoldLastWins(h: map<string, bool>, pages: seq<PageInfo>, env: Env, i: nat)
    requires i < |pages| && env.newFromText(pages[i].title).Some?
    requires forall j :: i < j < |pages| ==> pages[j].title != pages[i].title
    ensures var h' := HiddenFold(h, pages, env); pages[i].title in h' && h'[pages[i].title] == IsHidden(pages[i])
    decreases |pages|
  {
    var n := |pages| - 1;
    var front := pages[..n];
    if i < n {
      assert front[i] == pages[i];
      assert forall j :: i < j < n ==> front[j].title != front[i].title;
      HiddenFoldLastWins(h, front, env, i);
    }
  }

  lemma {:induction false} HiddenFoldFrame(h: map<string, bool>, pages: seq<PageInfo>, env: Env, t: string)
    requires !ValidPageTitled(pages, env, t)
    ensures var h' := HiddenFold(h, pages, env); (t in h' <==> t in h) && (t in h ==> h'[t] == h[t])
    decreases |pages|
  {
    if |pages| > 0 {
      var n := |pages| - 1;
      var front := pages[..n];
      assert !ValidPageTitled(front, env, t);
      HiddenFoldFrame(h, front, env, t);
    }
  }

  /** The hidden-status table holds, under a valid page title, the status of the last page with that title. */
  lemma ReadPagesHiddenLastWins(acc: Cache, pages: seq<PageInfo>, env: Env, i: nat)
    requires i < |pages| && env.newFromText(pages[i].title).Some?
    requires forall j :: i < j < |pages| ==> pages[j].title != pages[i].title
    ensures var h := ReadPages(acc, pages, env).hiddenStatus;
      pages[i].title in h && h[pages[i].title] == IsHidden(pages[i])
  {
    ReadPagesHiddenFold(acc, pages, env);
    HiddenFoldLastWins(acc.hiddenStatus, pages, env, i);
  }

  /** Titles of no valid page, invalid titles included, keep their entry in the hidden-status table, or their absence. */
  lemma ReadPagesHiddenFrame(acc: Cache, pages: seq<PageInfo>, env: Env, t: string)
    requires !ValidPageTitled(pages, env, t)
    ensures var h := ReadPages(acc, pages, env).hiddenStatus;
      (t in h <==> t in acc.hiddenStatus) && (t in acc.hiddenStatus ==> h[t] == acc.hiddenStatus[t])
  {
    ReadPagesHiddenFold(acc, pages, env);
    HiddenFoldFrame(acc.hiddenStatus, pages, env, t);
  }

  /** The returned dictionary never holds a main text twice. */
  lemma {:induction false} ReadPagesUniqueKeys(acc: Cache, pages: seq<PageInfo>, env: Env)
    requires UniqueKeys(acc.result)
    ensures UniqueKeys(ReadPages(acc, pages, env).result)
    decreases |pages|
  {
    if |pages| > 0 {
      var n := |pages| - 1;
      var prev := ReadPages(acc, pages[..n], env);
      assert ReadPages(acc, pages, env) == ReadPage(prev, pages[n], env);
      ReadPagesUniqueKeys(acc, pages[..n], env);
      var p := pages[n];
      if env.newFromText(p.title).Some? {
        PutKeepsKeysUnique(prev.result, env.newFromText(p.title).value.mainText, IsHidden(p));
      }
    }
  }

  /** One redirect of the response: record `from` under `to`, or start the list afresh. */
  function AddRedirect(m: Redirects, r: RedirectInfo): (m': Redirects)
    ensures r.to in m' && r.from in m'[r.to]
    ensures forall k :: k != r.to ==> (k in m' <==> k in m)
    ensures forall k :: k != r.to && k in m ==> m'[k] == m[k]
    ensures ListsDistinct(m) ==> ListsDistinct(m')
    ensures r.to in m && r.from !in m[r.to] ==>
      |m'[r.to]| == |m[r.to]| + 1 && m[r.to] <= m'[r.to] && m'[r.to][|m[r.to]|] == r.from
    ensures !(r.to in m && r.from !in m[r.to]) ==> m'[r.to] == [r.from]
  {
    if r.to in m && r.from !in m[r.to] then m[r.to := m[r.to] + [r.from]]
    else m[r.to := [r.from]]
  }

  /** The redirects of the response, in order. */
  function ReadRedirects(m: Redirects, rs: seq<RedirectInfo>): Redirects
    decreases |rs|
  {
    if |rs| == 0 then m
    else AddRedirect(ReadRedirects(m, rs[..|rs| - 1]), rs[|rs| - 1])
  }

  /** Every target of the response ends up in the table, whatever was recorded before: unlike `ReadRedirectsRecords`, this needs no duplicate-free table. */
  lemma {:induction false} ReadRedirectsTargets(m: Redirects, rs: seq<RedirectInfo>)
    ensures forall r :: r in rs ==> r.to in ReadRedirects(m, rs)
    decreases |rs|
  {
    if |rs| > 0 {
      var front := rs[..|rs| - 1];
      ReadRedirectsTargets(m, front);
      assert forall r :: r in rs ==> r in front || r == rs[|rs| - 1];
    }
  }

  /** Redirects never create a duplicate in a list that had none. */
  lemma {:induction false} ReadRedirectsDistinct(m: Redirects, rs: seq<RedirectInfo>)
    requires ListsDistinct(m)
    ensures ListsDistinct(ReadRedirects(m, rs))
    decreases |rs|
  {
    if |rs| > 0 {
      ReadRedirectsDistinct(m, rs[..|rs| - 1]);
    }
  }

  /** A key is in the table after the redirects exactly when it was before or some redirect targets it. */
  lemma {:induction false} ReadRedirectsKeys(m: Redirects, rs: seq<RedirectInfo>, k: string)
    ensures k in ReadRedirects(m, rs) <==> k in m || exists i :: 0 <= i < |rs| && rs[i].to == k
    decreases |rs|
  {
    if |rs| > 0 {
      var n := |rs| - 1;
      var front := rs[..n];
      ReadRedirectsKeys(m, front, k);
      if exists i :: 0 <= i < n && front[i].to == k {
        var i :| 0 <= i < n && front[i].to == k;
        assert rs[i].to == k;
      }
      if exists i :: 0 <= i < |rs| && rs[i].to == k {
        var i :| 0 <= i < |rs| && rs[i].to == k;
        if i < n {
          assert front[i].to == k;
        }
      }
    }
  }

  /** After a whole response, every target is in the table, the lists stay free of duplicates, and the last redirect's source is recorded. */
  lemma ReadRedirectsRecords(m: Redirects, rs: seq<RedirectInfo>)
    requires ListsDistinct(m)
    ensures var m' := ReadRedirects(m, rs);
      && ListsDistinct(m')
      && (forall i :: 0 <= i < |rs| ==> rs[i].to in m')
      && (forall k :: k in m' <==> k in m || exists i :: 0 <= i < |rs| && rs[i].to == k)
      && (|rs| > 0 ==> rs[|rs| - 1].from in m'[rs[|rs| - 1].to])
  {
    ReadRedirectsDistinct(m, rs);
    ReadRedirectsTargets(m, rs);
    assert forall i :: 0 <= i < |rs| ==> rs[i] in rs;
    forall k
      ensures k in ReadRedirects(m, rs) <==> k in m || exists i :: 0 <= i < |rs| && rs[i].to == k
    {
      ReadRedirectsKeys(m, rs, k);
    }
  }

  /** A redirect already recorded drops every other source recorded for its target. */
  lemma RepeatedRedirectResets(m: Redirects, r: RedirectInfo)
    requires r.to in m && r.from in m[r.to]
    ensures forall s :: s in m[r.to] && s != r.from ==> s !in AddRedirect(m, r)[r.to]
  {
  }

  /** `getLookupCacheItemFromData`: pages first, then redirects; the returned dictionary starts empty. */
  function CacheItemFromData(data: Response, hiddenStatus: map<string, bool>, redirects: Redirects, env: Env): (c: Cache)
    ensures data.query.None? ==> c == Cache([], hiddenStatus, redirects, [])
    ensures UniqueKeys(c.result)
    ensures data.query.Some? ==> var pages := data.query.value.pages.GetOr([]);
      && (forall k :: k in Keys(c.result) <==> SomePageNames(pages, env, k))
      && c.warnings == InvalidTitleWarnings(pages, env)
      && c.result == ReadPages(Cache([], hiddenStatus, redirects, []), pages, env).result
      && c.hiddenStatus == ReadPages(Cache([], hiddenStatus, redirects, []), pages, env).hiddenStatus
    ensures data.query.Some? && data.query.value.redirects.None? ==> c.redirects == redirects
    ensures data.query.Some? && data.query.value.redirects.Some? ==>
      && c.redirects == ReadRedirects(redirects, data.query.value.redirects.value)
      && forall r :: r in data.query.value.redirects.value ==> r.to in c.redirects
    ensures ListsDistinct(redirects) ==> ListsDistinct(c.redirects)
  {
    var start := Cache([], hiddenStatus, redirects, []);
    match data.query
    case None => start
    case Some(q) =>
      var pages := q.pages.GetOr([]);
      var afterPages := if q.pages.Some? then ReadPages(start, q.pages.value, env) else start;
      assert afterPages == ReadPages(start, pages, env);
      ReadPagesKeepsRedirects(start, pages, env);
      ReadPagesUniqueKeys(start, pages, env);
      ReadPagesWarnings(start, pages, env);
      forall k
        ensures k in Keys(afterPages.result) <==> SomePageNames(pages, env, k)
      {
        ReadPagesKeys(start, pages, env, k);
      }
      if q.redirects.Some? then
        var rs := q.redirects.value;
        var m' := ReadRedirects(redirects, rs);
        ReadRedirectsTargets(redirects, rs);
        assert ListsDistinct(redirects) ==> ListsDistinct(m') by {
          if ListsDistinct(redirects) {
            ReadRedirectsRecords(redirects, rs);
          }
        }
        afterPages.(redirects := m')
      else afterPages
  }

  /* ---------- Normalising the typed value ---------- */

  datatype CategoryItem = CategoryItem(name: string, value: string)

  /** `getCategoryItemFromValue`: the normalised title when valid; otherwise the raw value, first character upper-cased when forced. */
  function CategoryItemFromValue(value: string, env: Env): (c: CategoryItem)
    ensures env.newFromText(env.categoryPrefix + value).Some? ==>
      var t := env.newFromText(env.categoryPrefix + value).value;
      c.name == t.prefixedText && c.value == t.mainText
    ensures env.newFromText(env.categoryPrefix + value).None? ==>
      && c.name == env.categoryPrefix + c.value
      && (!env.forceCapitalization ==> c.value == value)
      && (env.forceCapitalization && |value| > 0 ==> c.value == env.upper(value[..1]) + value[1..])
      && (env.forceCapitalization && |value| == 0 ==> c.value == env.upper(""))
  {
    match env.newFromText(env.categoryPrefix + value)
    case Some(t) => CategoryItem(t.prefixedText, t.mainText)
    case None =>
      var first := if |value| > 0 then 1 else 0;
      var v := if env.forceCapitalization then env.upper(value[..first]) + value[first..] else value;
      CategoryItem(env.categoryPrefix + v, v)
  }

  /* ---------- Grouping the suggestions ---------- */

  /** The key the in-article scan reads the redirect table under: its title variable is still undefined there. */
  const UndefinedKey: string := "undefined"

  /**
    The prefixed title of a category name: the key a suggestion's redirects
    are recorded under, and, for the typed value, the query title redirect
    sources are compared against.
   */
  function TitleKey(item: string, env: Env): string {
    env.prefixedText("Category:" + item)
  }

  /** Some redirect recorded under `key` starts with the query title. */
  predicate RedirectSuggests(redirects: Redirects, key: string, qt: string) {
    key in redirects && exists i :: 0 <= i < |redirects[key]| && StartsWith(redirects[key][i], qt)
  }

  /** The query title itself is a redirect recorded under `key`. */
  predicate RedirectIsQuery(redirects: Redirects, key: string, qt: string) {
    key in redirects && qt in redirects[key]
  }

  /** The in-article admission test: prefix match, or a redirect under the undefined key. */
  predicate InArticleAdmits(item: string, cv: string, redirects: Redirects, qt: string) {
    StartsWith(item, cv) || RedirectSuggests(redirects, UndefinedKey, qt)
  }

  predicate InArticleExact(item: string, cv: string, redirects: Redirects, qt: string) {
    item == cv || RedirectIsQuery(redirects, UndefinedKey, qt)
  }

  /** The matching/hidden admission test, parsed as `(not in article && prefix match) || redirect hit`. */
  predicate SuggestionAdmits(item: string, cv: string, existing: seq<string>, redirects: Redirects, env: Env, qt: string) {
    (item !in existing && StartsWith(item, cv)) || RedirectSuggests(redirects, TitleKey(item, env), qt)
  }

  predicate SuggestionExact(item: string, cv: string, redirects: Redirects, env: Env, qt: string) {
    item == cv || RedirectIsQuery(redirects, TitleKey(item, env), qt)
  }

  /** The outcome of one scan: the listed items and whether one of them was an exact match. */
  datatype Scan = Scan(listed: seq<string>, exact: bool)

  /** One loop of `getLookupMenuItemsFromData`: list the admitted items, in order, noting exact matches among them. */
  function ScanItems(items: seq<string>, admit: string -> bool, isExact: string -> bool): (s: Scan)
    ensures |s.listed| <= |items|
    ensures forall x :: x in s.listed <==> x in items && admit(x)
    ensures s.exact <==> exists i :: 0 <= i < |items| && admit(items[i]) && isExact(items[i])
    decreases |items|
  {
    if |items| == 0 then Scan([], false)
    else
      var n := |items| - 1;
      var s := ScanItems(items[..n], admit, isExact);
      assert items == items[..n] + [items[n]];
      assert forall i :: 0 <= i < n ==> items[..n][i] == items[i];
      if admit(items[n]) then Scan(s.listed + [items[n]], s.exact || isExact(items[n]))
      else s
  }

  /** A loop over one item lists it exactly when it is admitted. */
  lemma ScanOne(x: string, admit: string -> bool, isExact: string -> bool)
    ensures ScanItems([x], admit, isExact) == if admit(x) then Scan([x], isExact(x)) else Scan([], false)
  {
    assert [x][..0] == [];
  }

  /**
    A loop over `a + b` lists the admitted items of `a` and then those of `b`,
    so items are listed in loop order; it finds an exact match in either run.
   */
  lemma {:induction false} ScanItemsAppend(a: seq<string>, b: seq<string>, admit: string -> bool, isExact: string -> bool)
    ensures var sa, sb := ScanItems(a, admit, isExact), ScanItems(b, admit, isExact);
      ScanItems(a + b, admit, isExact) == Scan(sa.listed + sb.listed, sa.exact || sb.exact)
    decreases |b|
  {
    if |b| == 0 {
      assert a + b == a;
    } else {
      var b' := b[..|b| - 1];
      assert (a + b)[..|a + b| - 1] == a + b';
      assert (a + b)[|a + b| - 1] == b[|b| - 1];
      ScanItemsAppend(a, b', admit, isExact);
    }
  }

  /** The dictionary's titles split by hidden status, each list in enumeration order. */
  function SplitByHidden(data: OrderedMap<bool>): (r: (seq<string>, seq<string>))
    ensures forall t :: t in r.0 <==> (t, true) in data
    ensures forall t :: t in r.1 <==> (t, false) in data
    decreases |data|
  {
    if |data| == 0 then ([], [])
    else
      var n := |data| - 1;
      var r := SplitByHidden(data[..n]);
      assert data == data[..n] + [data[n]];
      if data[n].1 then (r.0 + [data[n].0], r.1) else (r.0, r.1 + [data[n].0])
  }

  /** The split of one entry: its title goes to the list its flag selects. */
  lemma SplitOne(t: string, hidden: bool)
    ensures SplitByHidden([(t, hidden)]) == if hidden then ([t], []) else ([], [t])
  {
    var d := [(t, hidden)];
    assert d[..0] == [];
    assert SplitByHidden(d[..0]) == ([], []);
    assert d[0].1 == hidden && d[0].0 == t;
    var r := SplitByHidden(d);
    var none: seq<string> := [];
    assert none + [t] == [t];
    if hidden {
      assert r == (none + [t], none);
    } else {
      assert r == (none, none + [t]);
    }
  }

  /** Splitting `d + e` gives each of `d`'s lists followed by the same list of `e`: both lists keep enumeration order. */
  lemma {:induction false} SplitByHiddenAppend(d: OrderedMap<bool>, e: OrderedMap<bool>)
    ensures var sd, se := SplitByHidden(d), SplitByHidden(e);
      SplitByHidden(d + e) == (sd.0 + se.0, sd.1 + se.1)
    decreases |e|
  {
    if |e| == 0 {
      assert d + e == d;
      var sd := SplitByHidden(d);
      assert SplitByHidden(e) == ([], []);
      assert sd.0 + [] == sd.0 && sd.1 + [] == sd.1;
    } else {
      var e' := e[..|e| - 1];
      var x := e[|e| - 1];
      assert (d + e)[..|d + e| - 1] == d + e';
      assert (d + e)[|d + e| - 1] == x;
      var r, re := SplitByHidden(d + e'), SplitByHidden(e');
      assert SplitByHidden(d + e) == if x.1 then (r.0 + [x.0], r.1) else (r.0, r.1 + [x.0]);
      assert SplitByHidden(e) == if x.1 then (re.0 + [x.0], re.1) else (re.0, re.1 + [x.0]);
      SplitByHiddenAppend(d, e');
      var sd := SplitByHidden(d);
      assert r == (sd.0 + re.0, sd.1 + re.1);
      if x.1 {
        assert (sd.0 + re.0) + [x.0] == sd.0 + (re.0 + [x.0]);
      } else {
        assert (sd.1 + re.1) + [x.0] == sd.1 + (re.1 + [x.0]);
      }
    }
  }

  /** The split loses and duplicates nothing: together the two lists hold the dictionary's titles. */
  lemma {:induction false} SplitKeepsEveryTitle(data: OrderedMap<bool>)
    ensures multiset(SplitByHidden(data).0 + SplitByHidden(data).1) == multiset(Keys(data))
    decreases |data|
  {
    if |data| > 0 {
      var n := |data| - 1;
      SplitKeepsEveryTitle(data[..n]);
      assert data == data[..n] + [data[n]];
      KeysSnoc(data[..n], data[n]);
    }
  }

  /** The existing categories the in-article loop visits: all but the last. */
  function InArticleCandidates(existing: seq<string>): seq<string> {
    if |existing| == 0 then [] else existing[..|existing| - 1]
  }

  datatype Groups = Groups(newCategory: seq<string>, inArticle: seq<string>, matching: seq<string>, hidden: seq<string>)

  /** The in-article loop over `candidates`. */
  function InArticleScan(candidates: seq<string>, cv: string, redirects: Redirects, qt: string): (s: Scan)
    ensures forall x :: x in s.listed <==> x in candidates && InArticleAdmits(x, cv, redirects, qt)
    ensures s.exact <==> exists x :: x in candidates && InArticleAdmits(x, cv, redirects, qt) && InArticleExact(x, cv, redirects, qt)
  {
    ScanItems(candidates, x => InArticleAdmits(x, cv, redirects, qt), x => InArticleExact(x, cv, redirects, qt))
  }

  /** The matching or the hidden loop over the suggested titles `items`. */
  function SuggestionScan(items: seq<string>, cv: string, existing: seq<string>, redirects: Redirects, env: Env, qt: string): (s: Scan)
    ensures forall x :: x in s.listed <==> x in items && SuggestionAdmits(x, cv, existing, redirects, env, qt)
    ensures s.exact <==> exists x :: x in items && SuggestionAdmits(x, cv, existing, redirects, env, qt) && SuggestionExact(x, cv, redirects, env, qt)
  {
    ScanItems(items, x => SuggestionAdmits(x, cv, existing, redirects, env, qt), x => SuggestionExact(x, cv, redirects, env, qt))
  }

  /** The in-article group of `a + b` is that of `a` followed by that of `b`; one category is listed exactly when admitted. */
  lemma InArticleScanAppend(a: seq<string>, b: seq<string>, cv: string, redirects: Redirects, qt: string)
    ensures InArticleScan(a + b, cv, redirects, qt).listed
      == InArticleScan(a, cv, redirects, qt).listed + InArticleScan(b, cv, redirects, qt).listed
    ensures forall x :: InArticleScan([x], cv, redirects, qt).listed == if InArticleAdmits(x, cv, redirects, qt) then [x] else []
  {
    var admit := x => InArticleAdmits(x, cv, redirects, qt);
    var isExact := x => InArticleExact(x, cv, redirects, qt);
    ScanItemsAppend(a, b, admit, isExact);
    forall x
      ensures InArticleScan([x], cv, redirects, qt).listed == if InArticleAdmits(x, cv, redirects, qt) then [x] else []
    {
      ScanOne(x, admit, isExact);
    }
  }

  /** The matching or hidden group of `a + b` is that of `a` followed by that of `b`; one suggestion is listed exactly when admitted. */
  lemma SuggestionScanAppend(a: seq<string>, b: seq<string>, cv: string, existing: seq<string>, redirects: Redirects, env: Env, qt: string)
    ensures SuggestionScan(a + b, cv, existing, redirects, env, qt).listed
      == SuggestionScan(a, cv, existing, redirects, env, qt).listed + SuggestionScan(b, cv, existing, redirects, env, qt).listed
    ensures forall x ::
      SuggestionScan([x], cv, existing, redirects, env, qt).listed == if SuggestionAdmits(x, cv, existing, redirects, env, qt) then [x] else []
  {
    var admit := x => SuggestionAdmits(x, cv, existing, redirects, env, qt);
    var isExact := x => SuggestionExact(x, cv, redirects, env, qt);
    ScanItemsAppend(a, b, admit, isExact);
    forall x
      ensures SuggestionScan([x], cv, existing, redirects, env, qt).listed
        == if SuggestionAdmits(x, cv, existing, redirects, env, qt) then [x] else []
    {
      ScanOne(x, admit, isExact);
    }
  }

  /** The three scans, with the existing categories visited by the in-article loop given as `candidates`. */
  function GroupsFrom(candidates: seq<string>, data: OrderedMap<bool>, cv: string, existing: seq<string>, redirects: Redirects, env: Env): Groups {
    var qt := TitleKey(cv, env);
    var split := SplitByHidden(data);
    var a := InArticleScan(candidates, cv, redirects, qt);
    var m := SuggestionScan(split.1, cv, existing, redirects, env, qt);
    var h := SuggestionScan(split.0, cv, existing, redirects, env, qt);
    var exact := a.exact || m.exact || h.exact;
    Groups(if exact then [] else [cv], a.listed, m.listed, h.listed)
  }

  /** The grouping as written: the in-article loop stops before the last existing category. */
  function ComputeGroups(data: OrderedMap<bool>, value: string, existing: seq<string>, redirects: Redirects, env: Env): Groups {
    GroupsFrom(InArticleCandidates(existing), data, CategoryItemFromValue(value, env).value, existing, redirects, env)
  }

  /** Some scanned item is admitted to its group and matches the query exactly. */
  predicate ExactMatchFound(candidates: seq<string>, data: OrderedMap<bool>, cv: string, existing: seq<string>, redirects: Redirects, env: Env) {
    var qt := TitleKey(cv, env);
    || (exists x :: x in candidates && InArticleAdmits(x, cv, redirects, qt) && InArticleExact(x, cv, redirects, qt))
    || (exists x :: x in Keys(data) && SuggestionAdmits(x, cv, existing, redirects, env, qt) && SuggestionExact(x, cv, redirects, env, qt))
  }

  /** A title of the dictionary lands in one of the two lists of the split, and nothing else does. */
  lemma SplitMembership(data: OrderedMap<bool>, x: string)
    ensures x in Keys(data) <==> x in SplitByHidden(data).0 || x in SplitByHidden(data).1
  {
    var split := SplitByHidden(data);
    SplitKeepsEveryTitle(data);
    assert x in Keys(data) <==> x in multiset(Keys(data));
    assert x in split.0 + split.1 <==> x in multiset(split.0 + split.1);
  }

  /** A "new category" entry for the normalised value is offered exactly when no group produced an exact match. */
  lemma NewCategoryIffNoExactMatch(candidates: seq<string>, data: OrderedMap<bool>, cv: string, existing: seq<string>, redirects: Redirects, env: Env)
    ensures var g := GroupsFrom(candidates, data, cv, existing, redirects, env);
      && (g.newCategory == [cv] <==> !ExactMatchFound(candidates, data, cv, existing, redirects, env))
      && (g.newCategory == [] <==> ExactMatchFound(candidates, data, cv, existing, redirects, env))
  {
    var qt := TitleKey(cv, env);
    var split := SplitByHidden(data);
    var m := SuggestionScan(split.1, cv, existing, redirects, env, qt);
    var h := SuggestionScan(split.0, cv, existing, redirects, env, qt);
    var fromData := exists x :: x in Keys(data) && SuggestionAdmits(x, cv, existing, redirects, env, qt) && SuggestionExact(x, cv, redirects, env, qt);
    if fromData {
      var x :| x in Keys(data) && SuggestionAdmits(x, cv, existing, redirects, env, qt) && SuggestionExact(x, cv, redirects, env, qt);
      SplitMembership(data, x);
    }
    if m.exact || h.exact {
      var x :| (x in split.1 || x in split.0) && SuggestionAdmits(x, cv, existing, redirects, env, qt) && SuggestionExact(x, cv, redirects, env, qt);
      SplitMembership(data, x);
    }
  }

  /** The in-article group lists only existing categories other than the one in last position. */
  lemma InArticleSkipsLast(data: OrderedMap<bool>, value: string, existing: seq<string>, redirects: Redirects, env: Env)
    ensures var g := ComputeGroups(data, value, existing, redirects, env);
      && (forall x :: x in g.inArticle ==> x in existing[..if |existing| == 0 then 0 else |existing| - 1])
      && (|existing| > 0 && existing[|existing| - 1] !in existing[..|existing| - 1] ==> existing[|existing| - 1] !in g.inArticle)
  {
  }

  /** The in-article scan consults the redirect table only under "undefined"; without that key it is a plain prefix filter. */
  lemma InArticleReadsUndefinedKey(data: OrderedMap<bool>, value: string, existing: seq<string>, redirects: Redirects, env: Env)
    requires UndefinedKey !in redirects
    ensures var g := ComputeGroups(data, value, existing, redirects, env);
      var cv := CategoryItemFromValue(value, env).value;
      forall x :: x in g.inArticle <==> x in InArticleCandidates(existing) && StartsWith(x, cv)
  {
  }

  /** A redirect hit lists a matching or hidden suggestion even when the category is already in the article. */
  lemma RedirectOverridesExistingCheck(data: OrderedMap<bool>, value: string, existing: seq<string>, redirects: Redirects, env: Env, i: nat)
    requires i < |data|
    requires RedirectSuggests(redirects, TitleKey(data[i].0, env), TitleKey(CategoryItemFromValue(value, env).value, env))
    ensures var g := ComputeGroups(data, value, existing, redirects, env);
      if data[i].1 then data[i].0 in g.hidden else data[i].0 in g.matching
  {
    var split := SplitByHidden(data);
    if data[i].1 {
      assert data[i] == (data[i].0, true);
      assert data[i].0 in split.0;
    } else {
      assert data[i] == (data[i].0, false);
      assert data[i].0 in split.1;
    }
  }

  /**
    With the in-article loop as written, a category already in the article,
    in last position, is offered again as a new category.
   */
  lemma LastExistingOfferedAsNew(env: Env)
    requires env.newFromText(env.categoryPrefix + "Foo") == Some(Title("Category:Foo", "Foo"))
    ensures ComputeGroups([], "Foo", ["Foo"], map[], env).newCategory == ["Foo"]
  {
    NewCategoryIffNoExactMatch([], [], "Foo", ["Foo"], map[], env);
  }

  /** The same input on the menu: its first section offers "Foo", already in the article, as a new category. */
  lemma MenuOffersLastExistingAsNew(env: Env)
    requires env.newFromText(env.categoryPrefix + "Foo") == Some(Title("Category:Foo", "Foo"))
    ensures var menu := MenuItemsFromData([], "Foo", ["Foo"], map[], env);
      |menu| >= 2 && menu[..2] == [Section("newCategory", NewCategoryMsg), Item("Foo", Plain("Foo"))]
  {
    LastExistingOfferedAsNew(env);
    assert "newCategory" in SectionIds(MenuItemsFromData([], "Foo", ["Foo"], map[], env));
  }

  /** The grouping as evidently intended: the in-article loop visits every existing category. */
  function ComputeGroupsIntended(data: OrderedMap<bool>, value: string, existing: seq<string>, redirects: Redirects, env: Env): Groups {
    GroupsFrom(existing, data, CategoryItemFromValue(value, env).value, existing, redirects, env)
  }

  /** With every existing category scanned, one equal to the typed value is listed in the article and never offered as new. */
  lemma IntendedNeverOffersExistingAsNew(data: OrderedMap<bool>, value: string, existing: seq<string>, redirects: Redirects, env: Env)
    requires CategoryItemFromValue(value, env).value in existing
    ensures var g := ComputeGroupsIntended(data, value, existing, redirects, env);
      g.newCategory == [] && CategoryItemFromValue(value, env).value in g.inArticle
  {
    var cv := CategoryItemFromValue(value, env).value;
    NewCategoryIffNoExactMatch(existing, data, cv, existing, redirects, env);
    assert InArticleAdmits(cv, cv, redirects, TitleKey(cv, env));
    assert InArticleExact(cv, cv, redirects, TitleKey(cv, env));
  }

  /* ---------- Rendering the menu ---------- */

  datatype Label = Plain(text: string) | ViaRedirect(redirectMainText: string, targetMainText: string)

  /** A menu row: a section header, or an item whose data is the category name. */
  datatype MenuEntry = Section(id: string, msgKey: string) | Item(data: string, caption: Label)

  /** `getMenuItemWidgetFromCategoryName`: one item per recorded redirect to the category, or a single plain item. */
  function WidgetsFor(item: string, redirects: Redirects, env: Env): (ws: seq<MenuEntry>)
    ensures forall w :: w in ws ==> w.Item? && w.data == item
    ensures TitleKey(item, env) !in redirects ==> ws == [Item(item, Plain(item))]
    ensures TitleKey(item, env) in redirects ==>
      var rs := redirects[TitleKey(item, env)];
      |ws| == |rs| && forall i :: 0 <= i < |rs| ==> ws[i].caption == ViaRedirect(env.mainText(rs[i]), env.mainText(item))
  {
    var key := TitleKey(item, env);
    if key in redirects then
      var rs := redirects[key];
      seq(|rs|, i requires 0 <= i < |rs| => Item(item, ViaRedirect(env.mainText(rs[i]), env.mainText(item))))
    else [Item(item, Plain(item))]
  }

  /**
    The rows of the categories `items`, category by category: the plain fold
    behind `ItemsFor`, kept free of ensures so that proofs unfolding it stay
    within the solver's resource limit.
   */
  function ItemRows(items: seq<string>, redirects: Redirects, env: Env): seq<MenuEntry>
    decreases |items|
  {
    if |items| == 0 then []
    else ItemRows(items[..|items| - 1], redirects, env) + WidgetsFor(items[|items| - 1], redirects, env)
  }

  lemma {:induction false} ItemRowsMembers(items: seq<string>, redirects: Redirects, env: Env)
    ensures var ws := ItemRows(items, redirects, env);
      && (forall w :: w in ws ==> w.Item? && w.data in items)
      && (forall w :: w in ws <==> exists i :: 0 <= i < |items| && w in WidgetsFor(items[i], redirects, env))
    decreases |items|
  {
    if |items| > 0 {
      var n := |items| - 1;
      var front := items[..n];
      ItemRowsMembers(front, redirects, env);
      assert forall i :: 0 <= i < n ==> front[i] == items[i];
    }
  }

  /** The items of a group, the rows of each of its categories and nothing else: `ItemRows` with its contract. */
  function ItemsFor(items: seq<string>, redirects: Redirects, env: Env): (ws: seq<MenuEntry>)
    ensures forall w :: w in ws ==> w.Item? && w.data in items
    ensures forall w :: w in ws <==> exists i :: 0 <= i < |items| && w in WidgetsFor(items[i], redirects, env)
  {
    ItemRowsMembers(items, redirects, env);
    ItemRows(items, redirects, env)
  }

  lemma {:induction false} ItemRowsAppend(a: seq<string>, b: seq<string>, redirects: Redirects, env: Env)
    ensures ItemRows(a + b, redirects, env) == ItemRows(a, redirects, env) + ItemRows(b, redirects, env)
    decreases |b|
  {
    if |b| == 0 {
      assert a + b == a;
    } else {
      var b' := b[..|b| - 1];
      assert (a + b)[..|a + b| - 1] == a + b';
      assert (a + b)[|a + b| - 1] == b[|b| - 1];
      ItemRowsAppend(a, b', redirects, env);
    }
  }

  lemma ItemRowsOne(a: seq<string>, redirects: Redirects, env: Env)
    ensures |a| == 1 ==> ItemRows(a, redirects, env) == WidgetsFor(a[0], redirects, env)
  {
    if |a| == 1 {
      assert a[..0] == [];
    }
  }

  /** The rows of two runs of categories follow one another, so rows come in category order; one category's rows are its widgets. */
  lemma ItemsForAppend(a: seq<string>, b: seq<string>, redirects: Redirects, env: Env)
    ensures ItemsFor(a + b, redirects, env) == ItemsFor(a, redirects, env) + ItemsFor(b, redirects, env)
    ensures |a| == 1 ==> ItemsFor(a, redirects, env) == WidgetsFor(a[0], redirects, env)
  {
    ItemRowsAppend(a, b, redirects, env);
    ItemRowsOne(a, redirects, env);
  }

  /** A section: its header and its entries, or nothing when the group is empty. */
  function SectionOf(id: string, msgKey: string, isEmpty: bool, entries: seq<MenuEntry>): seq<MenuEntry> {
    if isEmpty then [] else [Section(id, msgKey)] + entries
  }

  const NewCategoryMsg: string := "visualeditor-dialog-meta-categories-input-newcategorylabel"
  const InArticleMsg: string := "visualeditor-dialog-meta-categories-input-movecategorylabel"
  const MatchingMsg: string := "visualeditor-dialog-meta-categories-input-matchingcategorieslabel"
  const HiddenMsg: string := "visualeditor-dialog-meta-categories-input-hiddencategorieslabel"

  /** The menu of a grouping, sections in the fixed order new, in article, matching, hidden. */
  function Render(g: Groups, redirects: Redirects, env: Env): seq<MenuEntry> {
    var plain := seq(|g.newCategory|, i requires 0 <= i < |g.newCategory| => Item(g.newCategory[i], Plain(g.newCategory[i])));
    SectionOf("newCategory", NewCategoryMsg, |g.newCategory| == 0, plain)
    + SectionOf("inArticle", InArticleMsg, |g.inArticle| == 0, ItemsFor(g.inArticle, redirects, env))
    + SectionOf("matchingCategories", MatchingMsg, |g.matching| == 0, ItemsFor(g.matching, redirects, env))
    + SectionOf("hiddenCategories", HiddenMsg, |g.hidden| == 0, ItemsFor(g.hidden, redirects, env))
  }

  /** The section headers of a menu, in order. */
  function SectionIds(entries: seq<MenuEntry>): seq<string>
    decreases |entries|
  {
    if |entries| == 0 then []
    else SectionIds(entries[..|entries| - 1]) + (if entries[|entries| - 1].Section? then [entries[|entries| - 1].id] else [])
  }

  lemma {:induction false} SectionIdsAppend(a: seq<MenuEntry>, b: seq<MenuEntry>)
    ensures SectionIds(a + b) == SectionIds(a) + SectionIds(b)
    decreases |b|
  {
    if |b| == 0 {
      assert a + b == a;
    } else {
      var b' := b[..|b| - 1];
      assert (a + b)[..|a + b| - 1] == a + b';
      assert (a + b)[|a + b| - 1] == b[|b| - 1];
      SectionIdsAppend(a, b');
    }
  }

  lemma {:induction false} NoSectionsAmongItems(entries: seq<MenuEntry>)
    requires forall w :: w in entries ==> w.Item?
    ensures SectionIds(entries) == []
    decreases |entries|
  {
    if |entries| > 0 {
      assert forall w :: w in entries[..|entries| - 1] ==> w in entries;
      assert entries[|entries| - 1] in entries;
      NoSectionsAmongItems(entries[..|entries| - 1]);
    }
  }

  lemma SectionIdsOfSection(id: string, msgKey: string, isEmpty: bool, entries: seq<MenuEntry>)
    requires forall w :: w in entries ==> w.Item?
    ensures SectionIds(SectionOf(id, msgKey, isEmpty, entries)) == if isEmpty then [] else [id]
  {
    if !isEmpty {
      SectionIdsAppend([Section(id, msgKey)], entries);
      NoSectionsAmongItems(entries);
      assert SectionIds([Section(id, msgKey)]) == [id];
    }
  }

  /** Headers appear in the order new, in article, matching, hidden, each only when its group is non-empty. */
  lemma SectionOrder(g: Groups, redirects: Redirects, env: Env)
    ensures SectionIds(Render(g, redirects, env)) ==
      (if |g.newCategory| > 0 then ["newCategory"] else [])
      + (if |g.inArticle| > 0 then ["inArticle"] else [])
      + (if |g.matching| > 0 then ["matchingCategories"] else [])
      + (if |g.hidden| > 0 then ["hiddenCategories"] else [])
  {
    var plain := seq(|g.newCategory|, i requires 0 <= i < |g.newCategory| => Item(g.newCategory[i], Plain(g.newCategory[i])));
    var s1 := SectionOf("newCategory", NewCategoryMsg, |g.newCategory| == 0, plain);
    var s2 := SectionOf("inArticle", InArticleMsg, |g.inArticle| == 0, ItemsFor(g.inArticle, redirects, env));
    var s3 := SectionOf("matchingCategories", MatchingMsg, |g.matching| == 0, ItemsFor(g.matching, redirects, env));
    var s4 := SectionOf("hiddenCategories", HiddenMsg, |g.hidden| == 0, ItemsFor(g.hidden, redirects, env));
    SectionIdsOfSection("newCategory", NewCategoryMsg, |g.newCategory| == 0, plain);
    SectionIdsOfSection("inArticle", InArticleMsg, |g.inArticle| == 0, ItemsFor(g.inArticle, redirects, env));
    SectionIdsOfSection("matchingCategories", MatchingMsg, |g.matching| == 0, ItemsFor(g.matching, redirects, env));
    SectionIdsOfSection("hiddenCategories", HiddenMsg, |g.hidden| == 0, ItemsFor(g.hidden, redirects, env));
    SectionIdsAppend(s1, s2);
    SectionIdsAppend(s1 + s2, s3);
    SectionIdsAppend(s1 + s2 + s3, s4);
  }

  /** A group has a header in the menu exactly when it is non-empty. */
  lemma SectionPresence(g: Groups, redirects: Redirects, env: Env)
    ensures var ids := SectionIds(Render(g, redirects, env));
      && ("newCategory" in ids <==> |g.newCategory| > 0)
      && ("inArticle" in ids <==> |g.inArticle| > 0)
      && ("matchingCategories" in ids <==> |g.matching| > 0)
      && ("hiddenCategories" in ids <==> |g.hidden| > 0)
  {
    SectionOrder(g, redirects, env);
  }

  /** A grouping's new-category row, when there is one, opens the menu and offers the value itself. */
  lemma NewCategoryRowFirst(g: Groups, cv: string, redirects: Redirects, env: Env)
    ensures g.newCategory == [cv] ==>
      var menu := Render(g, redirects, env);
      |menu| >= 2 && menu[..2] == [Section("newCategory", NewCategoryMsg), Item(cv, Plain(cv))]
  {
    if g.newCategory == [cv] {
      var plain := seq(|g.newCategory|, i requires 0 <= i < |g.newCategory| => Item(g.newCategory[i], Plain(g.newCategory[i])));
      assert plain == [Item(cv, Plain(cv))];
    }
  }

  /**
    `getLookupMenuItemsFromData` as written: a "new category" section, whose
    one row is the normalised value, opens the menu exactly when no scan,
    the in-article one stopping before the last existing category, found an
    exact match.
   */
  function MenuItemsFromData(data: OrderedMap<bool>, value: string, existing: seq<string>, redirects: Redirects, env: Env): (menu: seq<MenuEntry>)
    ensures var cv := CategoryItemFromValue(value, env).value;
      && ("newCategory" in SectionIds(menu) <==> !ExactMatchFound(InArticleCandidates(existing), data, cv, existing, redirects, env))
      && ("newCategory" in SectionIds(menu) ==> |menu| >= 2 && menu[..2] == [Section("newCategory", NewCategoryMsg), Item(cv, Plain(cv))])
  {
    var cv := CategoryItemFromValue(value, env).value;
    var g := ComputeGroups(data, value, existing, redirects, env);
    NewCategoryIffNoExactMatch(InArticleCandidates(existing), data, cv, existing, redirects, env);
    SectionPresence(g, redirects, env);
    NewCategoryRowFirst(g, cv, redirects, env);
    Render(g, redirects, env)
  }

  /**
    The menu as evidently intended, every existing category scanned: a value
    already in the article gets an "in article" section and never a "new
    category" one.
   */
  function MenuItemsFromDataIntended(data: OrderedMap<bool>, value: string, existing: seq<string>, redirects: Redirects, env: Env): (menu: seq<MenuEntry>)
    ensures var cv := CategoryItemFromValue(value, env).value;
      && ("newCategory" in SectionIds(menu) <==> !ExactMatchFound(existing, data, cv, existing, redirects, env))
      && ("newCategory" in SectionIds(menu) ==> |menu| >= 2 && menu[..2] == [Section("newCategory", NewCategoryMsg), Item(cv, Plain(cv))])
      && (cv in existing ==> "newCategory" !in SectionIds(menu) && "inArticle" in SectionIds(menu))
  {
    var cv := CategoryItemFromValue(value, env).value;
    var g := ComputeGroupsIntended(data, value, existing, redirects, env);
    NewCategoryIffNoExactMatch(existing, data, cv, existing, redirects, env);
    SectionPresence(g, redirects, env);
    NewCategoryRowFirst(g, cv, redirects, env);
    assert cv in existing ==> g.newCategory == [] && cv in g.inArticle by {
      if cv in existing {
        IntendedNeverOffersExistingAsNew(data, value, existing, redirects, env);
      }
    }
    Render(g, redirects, env)
  }
}
