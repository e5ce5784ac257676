/**
  The template-parameter search box (`ve.ui.MWParameterSearchWidget`): it
  indexes the parameters a template's specification knows but the template
  does not use yet, filters that index by what the user typed, and offers an
  "unknown parameter" entry or a disabled "no unused parameters" entry when
  the index alone does not answer the query.

  `lower` stands for `String.prototype.toLowerCase`; the two user-visible
  messages are passed in as `Messages`.
 */
module ParameterSearch {
  import opened Wrappers
  import opened Text

  /** The template specification, as far as the index reads it. */
  datatype Spec = Spec(
    parameterNames: seq<string>,
    labelOf: string -> string,
    aliasesOf: string -> seq<string>,
    descriptionOf: string -> string)

  /** One searchable parameter: two lower-cased query strings and what is displayed. */
  datatype IndexEntry = IndexEntry(
    text: string,          // label and description, lower-cased
    names: string,         // name and aliases joined by "|", lower-cased
    name: string,
    paramLabel: string,
    aliases: seq<string>,
    description: string)

  /** The index entry of parameter `name`. */
  function EntryFor(spec: Spec, name: string, lower: string -> string): IndexEntry {
    var paramLabel := spec.labelOf(name);
    var aliases := spec.aliasesOf(name);
    var description := spec.descriptionOf(name);
    IndexEntry(
      lower(Join([paramLabel, description], " ")),
      lower(Join([name] + aliases, "|")),
      name, paramLabel, aliases, description)
  }

  /** An entry's query strings: the label and description joined by one space, and the name and aliases joined by "|", both lower-cased. */
  lemma EntryQueryStrings(spec: Spec, name: string, lower: string -> string)
    ensures EntryFor(spec, name, lower).text == lower(spec.labelOf(name) + " " + spec.descriptionOf(name))
    ensures |spec.aliasesOf(name)| == 0 ==> EntryFor(spec, name, lower).names == lower(name)
    ensures |spec.aliasesOf(name)| > 0 ==>
      EntryFor(spec, name, lower).names == lower(Join([name] + spec.aliasesOf(name)[..|spec.aliasesOf(name)| - 1], "|") + "|" + spec.aliasesOf(name)[|spec.aliasesOf(name)| - 1])
  {
    JoinPair(spec.labelOf(name), spec.descriptionOf(name), " ");
    var al := spec.aliasesOf(name);
    if |al| == 0 {
      assert [name] + al == [name];
    } else {
      assert [name] + al == ([name] + al[..|al| - 1]) + [al[|al| - 1]];
      JoinSnoc([name] + al[..|al| - 1], al[|al| - 1], "|");
    }
  }

  /** The parameter names of `names` that are not in `used`, in their order. */
  function Unused(names: seq<string>, used: set<string>): (r: seq<string>)
    ensures |r| <= |names|
    ensures forall n :: n in r <==> n in names && n !in used
    decreases |names|
  {
    if |names| == 0 then []
    else
      var last := names[|names| - 1];
      assert names == names[..|names| - 1] + [last];
      Unused(names[..|names| - 1], used) + (if last in used then [] else [last])
  }

  /** Dropping used names keeps the order: it works piecewise on concatenations. */
  lemma {:induction false} UnusedAppend(a: seq<string>, b: seq<string>, used: set<string>)
    ensures Unused(a + b, used) == Unused(a, used) + Unused(b, used)
    decreases |b|
  {
    if |b| == 0 {
      assert a + b == a;
    } else {
      var b' := b[..|b| - 1];
      assert (a + b)[..|a + b| - 1] == a + b';
      assert (a + b)[|a + b| - 1] == b[|b| - 1];
      UnusedAppend(a, b', used);
    }
  }

  /** The index as the specification determines it: one entry per unused parameter, in specification order. */
  function IndexFor(spec: Spec, used: set<string>, lower: string -> string): seq<IndexEntry> {
    EntriesFor(spec, spec.parameterNames, used, lower)
  }

  /** The entries of the unused names among `names`, in their order. */
  function EntriesFor(spec: Spec, names: seq<string>, used: set<string>, lower: string -> string): (es: seq<IndexEntry>)
    ensures |es| == |Unused(names, used)|
    ensures forall i :: 0 <= i < |es| ==> es[i] == EntryFor(spec, Unused(names, used)[i], lower)
  {
    var u := Unused(names, used);
    seq(|u|, i requires 0 <= i < |u| => EntryFor(spec, u[i], lower))
  }

  /** One more name: its entry is appended when the name is unused. */
  lemma EntriesForSnoc(spec: Spec, names: seq<string>, name: string, used: set<string>, lower: string -> string)
    ensures EntriesFor(spec, names + [name], used, lower)
      == EntriesFor(spec, names, used, lower) + (if name in used then [] else [EntryFor(spec, name, lower)])
  {
    var names' := names + [name];
    assert names'[..|names|] == names;
    var u := Unused(names, used);
    var u' := Unused(names', used);
    assert u' == u + (if name in used then [] else [name]);
    var a := EntriesFor(spec, names, used, lower);
    var b := EntriesFor(spec, names', used, lower);
    forall j | 0 <= j < |u|
      ensures b[j] == a[j]
    {
      assert u'[j] == u[j];
    }
  }

  /**
    `buildIndex`: the index is emptied, then one entry is pushed for each
    parameter name of the specification the template does not have yet.
   */
  method BuildIndex(spec: Spec, used: set<string>, lower: string -> string) returns (index: seq<IndexEntry>)
    ensures index == IndexFor(spec, used, lower)
  {
    var names := spec.parameterNames;
    index := [];
    var i := 0;
    while i < |names|
      invariant 0 <= i <= |names|
      invariant index == EntriesFor(spec, names[..i], used, lower)
    {
      var name := names[i];
      assert names[..i + 1] == names[..i] + [name];
      EntriesForSnoc(spec, names[..i], name, used, lower);
      if name !in used {
        index := index + [EntryFor(spec, name, lower)];
      }
      i := i + 1;
    }
    assert names[..i] == names;
  }

  /** Exactly the unused parameters are indexed, each once per occurrence in the specification. */
  lemma IndexHoldsUnusedParameters(spec: Spec, used: set<string>, lower: string -> string)
    ensures forall e :: e in IndexFor(spec, used, lower) ==> e.name in spec.parameterNames && e.name !in used
    ensures forall n :: n in spec.parameterNames && n !in used ==> EntryFor(spec, n, lower) in IndexFor(spec, used, lower)
  {
    var u := Unused(spec.parameterNames, used);
    var index := IndexFor(spec, used, lower);
    forall n | n in spec.parameterNames && n !in used
      ensures EntryFor(spec, n, lower) in index
    {
      var i :| 0 <= i < |u| && u[i] == n;
      assert index[i] == EntryFor(spec, n, lower);
    }
  }

  /** Characters the query may not contain. */
  const QuerySpecials: set<char> := {'|', '{', '}'}

  /** The query value: the typed text trimmed, then stripped of every "|", "{" and "}". */
  function Sanitize(raw: string): (value: string)
    ensures |value| <= |raw|
    ensures forall i :: 0 <= i < |value| ==> value[i] !in QuerySpecials
    ensures forall c :: c !in QuerySpecials ==> multiset(value)[c] == multiset(Trim(raw))[c]
  {
    RemoveChars(Trim(raw), QuerySpecials)
  }

  /** The query occurs in the entry's label-and-description text. */
  predicate TextMatch(e: IndexEntry, query: string) {
    IndexOf(e.text, query) >= 0
  }

  /** The query occurs in the entry's name-and-aliases text. */
  predicate NameMatch(e: IndexEntry, query: string) {
    IndexOf(e.names, query) >= 0
  }

  predicate Matches(e: IndexEntry, query: string) {
    TextMatch(e, query) || NameMatch(e, query)
  }

  /** The entries of `index` matching `query`, in index order. */
  function Matching(index: seq<IndexEntry>, query: string): (r: seq<IndexEntry>)
    ensures |r| <= |index|
    ensures forall e :: e in r <==> e in index && Matches(e, query)
    decreases |index|
  {
    if |index| == 0 then []
    else
      var last := index[|index| - 1];
      assert index == index[..|index| - 1] + [last];
      Matching(index[..|index| - 1], query) + (if Matches(last, query) then [last] else [])
  }

  /** Filtering keeps index order: it works piecewise on concatenations. */
  lemma {:induction false} MatchingAppend(a: seq<IndexEntry>, b: seq<IndexEntry>, query: string)
    ensures Matching(a + b, query) == Matching(a, query) + Matching(b, query)
    decreases |b|
  {
    if |b| == 0 {
      assert a + b == a;
    } else {
      var b' := b[..|b| - 1];
      assert (a + b)[..|a + b| - 1] == a + b';
      assert (a + b)[|a + b| - 1] == b[|b| - 1];
      MatchingAppend(a, b', query);
    }
  }

  /** Some entry matches the query by name or alias. */
  predicate AnyNameMatch(index: seq<IndexEntry>, query: string) {
    exists i :: 0 <= i < |index| && NameMatch(index[i], query)
  }

  /** The data a result item carries; the name is null for the "no unused parameters" entry. */
  datatype ResultData = ResultData(name: Option<string>, paramLabel: string, aliases: seq<string>, description: string)

  datatype ResultItem = ResultItem(data: ResultData, disabled: bool)

  /** The two messages the results may show. */
  datatype Messages = Messages(unknown: string, noUnused: string)

  function ResultOf(e: IndexEntry): ResultItem {
    ResultItem(ResultData(Some(e.name), e.paramLabel, e.aliases, e.description), false)
  }

  function ResultsOf(es: seq<IndexEntry>): (r: seq<ResultItem>)
    ensures |r| == |es|
    ensures forall i :: 0 <= i < |es| ==> r[i] == ResultOf(es[i])
  {
    seq(|es|, i requires 0 <= i < |es| => ResultOf(es[i]))
  }

  /** The entry offering to add the typed name as a parameter the specification does not know. */
  function UnknownItem(value: string, msgs: Messages): ResultItem {
    ResultItem(ResultData(Some(value), value, [], msgs.unknown), false)
  }

  /** The disabled entry shown when nothing else is. */
  function NoUnusedItem(msgs: Messages): ResultItem {
    ResultItem(ResultData(None, "", [], msgs.noUnused), true)
  }

  /** The unknown entry is offered: no entry matched by name, something was typed, and the template lacks it. */
  predicate OffersUnknown(index: seq<IndexEntry>, value: string, query: string, used: set<string>) {
    !AnyNameMatch(index, query) && |value| > 0 && value !in used
  }

  /** The result list for the sanitised value `value` and the query `query` made from it. */
  function ResultsFor(index: seq<IndexEntry>, value: string, query: string, used: set<string>, msgs: Messages): seq<ResultItem> {
    var found := (if OffersUnknown(index, value, query, used) then [UnknownItem(value, msgs)] else [])
      + ResultsOf(Matching(index, query));
    if |found| == 0 then [NoUnusedItem(msgs)] else found
  }

  /** The result list for the typed text `raw`, as a reference definition. */
  function SearchResults(index: seq<IndexEntry>, raw: string, used: set<string>, lower: string -> string, msgs: Messages): seq<ResultItem> {
    ResultsFor(index, Sanitize(raw), lower(Sanitize(raw)), used, msgs)
  }

  /**
    `addResults`: scans the index once, collecting the matching entries and
    noting whether any matched by name, then puts the unknown entry in front
    or falls back to the disabled entry.
   */
  method AddResults(index: seq<IndexEntry>, raw: string, used: set<string>, lower: string -> string, msgs: Messages)
    returns (items: seq<ResultItem>)
    ensures items == SearchResults(index, raw, used, lower, msgs)
  {
    var value := Sanitize(raw);
    var query := lower(value);
    var exactMatch := false;
    items := [];
    var i := 0;
    while i < |index|
      invariant 0 <= i <= |index|
      invariant items == ResultsOf(Matching(index[..i], query))
      invariant exactMatch <==> AnyNameMatch(index[..i], query)
    {
      var item := index[i];
      ScanStep(index, i, query);
      var textMatch := IndexOf(item.text, query) >= 0;
      var nameMatch := IndexOf(item.names, query) >= 0;
      if textMatch || nameMatch {
        items := items + [ResultOf(item)];
        if nameMatch {
          exactMatch := true;
        }
      }
      i := i + 1;
    }
    assert index[..i] == index;
    assert (!exactMatch && |value| > 0 && value !in used) == OffersUnknown(index, value, query, used);
    if !exactMatch && |value| > 0 && value !in used {
      items := [UnknownItem(value, msgs)] + items;
    }
    if |items| == 0 {
      items := [NoUnusedItem(msgs)];
    }
    assert items == ResultsFor(index, value, query, used, msgs);
  }

  /** One more entry scanned: the filter and the name-match flag grow by that entry alone. */
  lemma ScanStep(index: seq<IndexEntry>, i: nat, query: string)
    requires i < |index|
    ensures Matching(index[..i + 1], query)
      == Matching(index[..i], query) + (if Matches(index[i], query) then [index[i]] else [])
    ensures AnyNameMatch(index[..i + 1], query) <==> AnyNameMatch(index[..i], query) || NameMatch(index[i], query)
    ensures ResultsOf(Matching(index[..i + 1], query))
      == ResultsOf(Matching(index[..i], query)) + (if Matches(index[i], query) then [ResultOf(index[i])] else [])
  {
    assert index[..i + 1] == index[..i] + [index[i]];
    assert index[..i + 1][..i] == index[..i];
    if NameMatch(index[i], query) {
      assert index[..i + 1][i] == index[i];
    }
    if AnyNameMatch(index[..i], query) {
      var j :| 0 <= j < i && NameMatch(index[..i][j], query);
      assert index[..i + 1][j] == index[..i][j];
    }
    if Matches(index[i], query) {
      ResultsOfSnoc(Matching(index[..i], query), index[i]);
    }
  }

  lemma ResultsOfSnoc(es: seq<IndexEntry>, e: IndexEntry)
    ensures ResultsOf(es + [e]) == ResultsOf(es) + [ResultOf(e)]
  {
  }

  /** The result list is never empty; when it falls back, it is the single disabled entry with a null name. */
  lemma ResultsNeverEmpty(index: seq<IndexEntry>, raw: string, used: set<string>, lower: string -> string, msgs: Messages)
    ensures var r := SearchResults(index, raw, used, lower, msgs);
      && |r| >= 1
      && (r[0].data.name.None? <==> r == [NoUnusedItem(msgs)])
      && (r == [NoUnusedItem(msgs)] <==>
           !OffersUnknown(index, Sanitize(raw), lower(Sanitize(raw)), used) && |Matching(index, lower(Sanitize(raw)))| == 0)
  {
  }

  /** The unknown entry, named by the sanitised value, is first exactly when it is offered; the matches follow in index order. */
  lemma UnknownComesFirst(index: seq<IndexEntry>, raw: string, used: set<string>, lower: string -> string, msgs: Messages)
    ensures var r := SearchResults(index, raw, used, lower, msgs);
      var value := Sanitize(raw);
      var matches := ResultsOf(Matching(index, lower(value)));
      && (OffersUnknown(index, value, lower(value), used) ==> r[0] == UnknownItem(value, msgs) && r[1..] == matches)
      && (!OffersUnknown(index, value, lower(value), used) && |matches| > 0 ==> r == matches)
  {
  }

  /** The empty string occurs in every string. */
  lemma EmptyOccursEverywhere(s: string)
    ensures IndexOf(s, "") == 0
  {
    assert OccursAt(s, "", 0);
  }

  /** An empty query matches every entry by name, so all indexed parameters are listed and no unknown entry is offered. */
  lemma EmptyQueryListsAll(index: seq<IndexEntry>, raw: string, used: set<string>, lower: string -> string, msgs: Messages)
    requires Sanitize(raw) == "" && lower("") == ""
    ensures SearchResults(index, raw, used, lower, msgs) == if |index| == 0 then [NoUnusedItem(msgs)] else ResultsOf(index)
  {
    forall e | e in index
      ensures NameMatch(e, "")
    {
      EmptyOccursEverywhere(e.names);
    }
    AllMatch(index, "");
  }

  /** When every entry matches, filtering keeps the whole index. */
  lemma {:induction false} AllMatch(index: seq<IndexEntry>, query: string)
    requires forall e :: e in index ==> Matches(e, query)
    ensures Matching(index, query) == index
    decreases |index|
  {
    if |index| > 0 {
      assert index == index[..|index| - 1] + [index[|index| - 1]];
      AllMatch(index[..|index| - 1], query);
    }
  }

  /** What `select` is emitted with: no item, or an item whose data may be missing. */
  datatype Selection = NoItem | Selected(data: Option<ResultData>)

  /** `onResultsSelect`: the selected item's parameter name, or null. */
  function OnResultsSelect(sel: Selection): (name: Option<string>)
    ensures name.Some? <==> sel.Selected? && sel.data.Some? && sel.data.value.name.Some?
    ensures name.Some? ==> name == sel.data.value.name
  {
    match sel
    case NoItem => None
    case Selected(data) =>
      match data
      case None => None
      case Some(d) => d.name
  }

  /** Every offered result is the disabled entry, the unknown entry for an unused value, or the result of an index entry. */
  lemma ResultNames(index: seq<IndexEntry>, value: string, query: string, used: set<string>, msgs: Messages, k: nat)
    requires k < |ResultsFor(index, value, query, used, msgs)|
    ensures var item := ResultsFor(index, value, query, used, msgs)[k];
      || (item == NoUnusedItem(msgs))
      || (item == UnknownItem(value, msgs) && value !in used)
      || (exists e :: e in index && item == ResultOf(e))
  {
    var ms := Matching(index, query);
    var offers := OffersUnknown(index, value, query, used);
    var found := (if offers then [UnknownItem(value, msgs)] else []) + ResultsOf(ms);
    if |found| > 0 && !(offers && k == 0) {
      var j := if offers then k - 1 else k;
      assert found[k] == ResultOf(ms[j]);
      assert ms[j] in index;
    }
  }

  /**
    Over an index built for a template, choosing any offered result yields
    either nothing (the disabled entry) or a parameter the template does not
    have yet: a name from the specification or the sanitised typed value.
   */
  lemma SelectionIsUnusedParameter(spec: Spec, used: set<string>, raw: string, lower: string -> string, msgs: Messages)
    ensures var r := SearchResults(IndexFor(spec, used, lower), raw, used, lower, msgs);
      forall k :: 0 <= k < |r| ==>
        var name := OnResultsSelect(Selected(Some(r[k].data)));
        && (name.None? ==> r[k].disabled)
        && (name.Some? ==> name.value !in used && (name.value in spec.parameterNames || name.value == Sanitize(raw)))
  {
    var index := IndexFor(spec, used, lower);
    var value := Sanitize(raw);
    var r := ResultsFor(index, value, lower(value), used, msgs);
    IndexHoldsUnusedParameters(spec, used, lower);
    forall k | 0 <= k < |r|
      ensures var name := OnResultsSelect(Selected(Some(r[k].data)));
        && (name.None? ==> r[k].disabled)
        && (name.Some? ==> name.value !in used && (name.value in spec.parameterNames || name.value == value))
    {
      ResultNames(index, value, lower(value), used, msgs, k);
    }
  }
}
