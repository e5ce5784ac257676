# VisualEditor dialog and widget logic, modelled in Dafny

This project models five pieces of MediaWiki's VisualEditor as pure functions over immutable data, and proves what they do.

- **Template-parameter search** (`ve.ui.MWParameterSearchWidget`), in module `ParameterSearch`. It builds a search index of the parameters a template's specification knows but the template does not use yet. It filters that index by the typed query. It adds an "unknown parameter" entry, or falls back to a disabled "no unused parameters" entry. It reports the selected parameter's name.
- **Category suggestions** (`ve.ui.MWCategoryInputWidget`), in module `CategoryInput`. It folds the server's answer into a title-to-hidden dictionary, the widget's hidden-status table and its redirect table. It normalises the typed value into a category item. It groups suggestions into new / in article / matching / hidden, and renders the groups as a sectioned menu with redirect-aware items.
- **Table cells** (`ve.dm.TableCellNode`), in module `TableCell`. It covers the node's static rules and default attributes, and the converters between `td`/`th` DOM elements and linear-model elements with `style` "data" or "header".
- **Reference-list dialog** (`ve.ui.MWReferenceListDialog`), in module `ReferenceList`. On setup the dialog decides whether it edits the focused reference list or inserts a new one. On teardown it decides which request reaches the document: nothing, an attribute change or an insertion.
- **Command help** (`ve.ui.MWCommandHelpDialog`), in module `CommandHelp`. It adds the wiki's save shortcut to the "other" group of the keyboard-shortcut listing.

The supporting modules are:

- `Wrappers`: `Option`.
- `Text`: JavaScript string operations: `indexOf`, `trim`, `join`, removing and replacing characters, ASCII case.
- `OrderedMaps`: a JavaScript object as an insertion-ordered dictionary.
- `DataModel`: linear-model elements.

Several services are parameters of the model rather than fixed definitions:

- the wiki's title library (`mw.Title`);
- the locale-aware case mappings (`toLowerCase` and `toUpperCase`);
- the interface messages (`ve.msg`);
- the configuration (`mw.config`).

Nothing in the model fixes how these behave.

## Model

| member | source | states |
|---|---|---|
| ParameterSearch.EntryQueryStrings | modules/ve-mw/ui/widgets/ve.ui.MWParameterSearchWidget.js:98-107 | An index entry's text is the lower-cased label and description joined by one space. Its names string is the lower-cased name followed by each alias, joined by "\|". |
| ParameterSearch.Unused | modules/ve-mw/ui/widgets/ve.ui.MWParameterSearchWidget.js:88-93 | A name is kept exactly when the specification lists it and the template does not already have it. |
| ParameterSearch.BuildIndex | modules/ve-mw/ui/widgets/ve.ui.MWParameterSearchWidget.js:82-108 | The rebuilt index equals the reference index: one entry per unused parameter, in specification order. |
| ParameterSearch.IndexHoldsUnusedParameters | modules/ve-mw/ui/widgets/ve.ui.MWParameterSearchWidget.js:88-107 | Every indexed entry names a specified, unused parameter. Every specified, unused parameter has its entry in the index. |
| ParameterSearch.Sanitize | modules/ve-mw/ui/widgets/ve.ui.MWParameterSearchWidget.js:122 | The query value contains no "\|", "{" or "}". Every other character occurs in it as often as in the trimmed input. |
| ParameterSearch.Matching | modules/ve-mw/ui/widgets/ve.ui.MWParameterSearchWidget.js:126-136 | An entry is listed exactly when the query occurs in its text or in its names. |
| ParameterSearch.AddResults | modules/ve-mw/ui/widgets/ve.ui.MWParameterSearchWidget.js:119-157 | The single-pass loop, with its name-match flag, produces exactly the reference result list. |
| ParameterSearch.ResultsNeverEmpty | modules/ve-mw/ui/widgets/ve.ui.MWParameterSearchWidget.js:147-157 | The results are never empty. They are the single disabled entry with a null name exactly when nothing matched and no unknown entry is offered. |
| ParameterSearch.UnknownComesFirst | modules/ve-mw/ui/widgets/ve.ui.MWParameterSearchWidget.js:138-145 | When no entry matched by name, the value is non-empty and the template lacks it, the unknown entry for the sanitised value comes first and the matches follow in index order. |
| ParameterSearch.EmptyQueryListsAll | modules/ve-mw/ui/widgets/ve.ui.MWParameterSearchWidget.js:122-157 | An empty query lists the whole index and offers no unknown entry. With an empty index it shows only the disabled entry. |
| ParameterSearch.OnResultsSelect | modules/ve-mw/ui/widgets/ve.ui.MWParameterSearchWidget.js:72-74 | The emitted value is the selected item's data name when there is an item with data and a name. Otherwise it is null. |
| ParameterSearch.SelectionIsUnusedParameter | modules/ve-mw/ui/widgets/ve.ui.MWParameterSearchWidget.js:72-145 | Selecting any offered result yields null, and then only for the disabled entry, or a parameter the template lacks. That parameter is either from the specification or the typed value. |
| CategoryInput.ReadPagesKeys | modules/ve-mw/ui/widgets/ve.ui.MWCategoryInputWidget.js:92-101 | The returned dictionary holds a main text exactly when some page with a valid title normalises to it. |
| CategoryInput.ReadPagesLastWins | modules/ve-mw/ui/widgets/ve.ui.MWCategoryInputWidget.js:93-97 | A main text maps to the hidden status of the last page that normalises to it. |
| CategoryInput.InvalidTitleWarnings | modules/ve-mw/ui/widgets/ve.ui.MWCategoryInputWidget.js:98-100 | A message is among the warnings exactly when some page has an invalid title and the message is that title's "is an invalid title!" text. |
| CategoryInput.ReadPagesWarnings | modules/ve-mw/ui/widgets/ve.ui.MWCategoryInputWidget.js:92-101 | The earlier warnings are kept, followed by one warning per page with an invalid title, in page order. |
| CategoryInput.ReadPagesHiddenLastWins | modules/ve-mw/ui/widgets/ve.ui.MWCategoryInputWidget.js:92-97 | The hidden-status table maps a valid page title to the hidden status of the last page with that title. |
| CategoryInput.ReadPagesHiddenFrame | modules/ve-mw/ui/widgets/ve.ui.MWCategoryInputWidget.js:92-101 | A title that no page with a valid title carries keeps its hidden-status entry, or its absence. |
| CategoryInput.ReadPagesUniqueKeys | modules/ve-mw/ui/widgets/ve.ui.MWCategoryInputWidget.js:92-97 | The returned dictionary never holds a main text twice. |
| CategoryInput.ReadPagesKeepsRedirects | modules/ve-mw/ui/widgets/ve.ui.MWCategoryInputWidget.js:92-101 | Reading pages never touches the redirect table. |
| CategoryInput.AddRedirect | modules/ve-mw/ui/widgets/ve.ui.MWCategoryInputWidget.js:105-112 | A source not yet listed under an existing target is appended to that target's list. In every other case the target's list becomes just that source. Other targets are unchanged. Lists stay free of duplicates. |
| CategoryInput.ReadRedirectsRecords | modules/ve-mw/ui/widgets/ve.ui.MWCategoryInputWidget.js:103-115 | After all redirects, the table's targets are the old ones plus every target in the answer. Lists stay free of duplicates. The last redirect's source is recorded. |
| CategoryInput.RepeatedRedirectResets | modules/ve-mw/ui/widgets/ve.ui.MWCategoryInputWidget.js:105-111 | For any table, a redirect whose source is already listed under its target drops every other source listed there. |
| CategoryInput.CacheItemFromData | modules/ve-mw/ui/widgets/ve.ui.MWCategoryInputWidget.js:90-117 | Without a query part, the result is empty and nothing is updated. Otherwise the dictionary holds exactly the main texts of the pages with valid titles, each once, and it and the hidden-status table are the page fold, so each main text maps to the hidden flag of its last page (`CategoryInput.ReadPagesLastWins`). The warnings are one per page with an invalid title, in order. The redirect table is the redirect fold (append or reset per redirect, `CategoryInput.AddRedirect`), holds every target, stays free of duplicates, and is unchanged when the answer has no redirects. |
| CategoryInput.CategoryItemFromValue | modules/ve-mw/ui/widgets/ve.ui.MWCategoryInputWidget.js:300-322 | A valid title gives its prefixed text and main text. Otherwise the name is the namespace prefix plus the value, with the first character upper-cased when capitalisation is forced. |
| CategoryInput.SplitByHidden | modules/ve-mw/ui/widgets/ve.ui.MWCategoryInputWidget.js:143-149 | A title is in the hidden list exactly when the dictionary maps it to true. It is in the matching list exactly when the dictionary maps it to false. Each list keeps enumeration order (`CategoryInput.SplitByHiddenAppend`). |
| CategoryInput.SplitOne | modules/ve-mw/ui/widgets/ve.ui.MWCategoryInputWidget.js:143-149 | One entry's title goes to the hidden list when its flag is true, and to the matching list otherwise. |
| CategoryInput.SplitByHiddenAppend | modules/ve-mw/ui/widgets/ve.ui.MWCategoryInputWidget.js:143-149 | Splitting two runs of entries gives each list of the first run followed by the same list of the second, so both lists keep enumeration order. |
| CategoryInput.SplitKeepsEveryTitle | modules/ve-mw/ui/widgets/ve.ui.MWCategoryInputWidget.js:143-149 | Together the two lists are a permutation of the dictionary's titles. |
| CategoryInput.ScanItems | modules/ve-mw/ui/widgets/ve.ui.MWCategoryInputWidget.js:172-190 | A scan lists exactly the admitted items, in loop order (`CategoryInput.ScanItemsAppend`). It reports an exact match exactly when some admitted item matches exactly. |
| CategoryInput.ScanOne | modules/ve-mw/ui/widgets/ve.ui.MWCategoryInputWidget.js:172-190 | A loop over one item lists it exactly when it is admitted, and reports an exact match exactly when it is also exact. |
| CategoryInput.ScanItemsAppend | modules/ve-mw/ui/widgets/ve.ui.MWCategoryInputWidget.js:152-210 | A loop over two runs of items lists the first run's admitted items followed by the second's, so items are pushed in loop order. It finds an exact match when either run does. |
| CategoryInput.InArticleScan | modules/ve-mw/ui/widgets/ve.ui.MWCategoryInputWidget.js:152-169 | The in-article loop lists exactly the visited categories that start with the value or have a suggesting redirect, in visiting order (`CategoryInput.InArticleScanAppend`). It reports an exact match exactly when one of them is the value or has the query as a redirect. |
| CategoryInput.InArticleScanAppend | modules/ve-mw/ui/widgets/ve.ui.MWCategoryInputWidget.js:152-169 | The in-article group of two runs of categories is the first run's group followed by the second's, and one category is listed exactly when admitted, so the group keeps the order of the existing categories. |
| CategoryInput.SuggestionScan | modules/ve-mw/ui/widgets/ve.ui.MWCategoryInputWidget.js:171-210 | The matching and hidden loops list exactly the suggestions that satisfy `(not in article && prefix) \|\| redirect`, in the order of their list (`CategoryInput.SuggestionScanAppend`). They report an exact match exactly when one of them is the value or has the query as a redirect. |
| CategoryInput.SuggestionScanAppend | modules/ve-mw/ui/widgets/ve.ui.MWCategoryInputWidget.js:171-210 | The matching or hidden group of two runs of suggestions is the first run's group followed by the second's, and one suggestion is listed exactly when admitted, so each group keeps the order of the split. |
| CategoryInput.NewCategoryIffNoExactMatch | modules/ve-mw/ui/widgets/ve.ui.MWCategoryInputWidget.js:151-215 | The "new category" group holds the normalised value exactly when no scan found an exact match. Otherwise it is empty. |
| CategoryInput.InArticleSkipsLast | modules/ve-mw/ui/widgets/ve.ui.MWCategoryInputWidget.js:152 | The in-article group lists only existing categories before the last one. A last category that is not repeated earlier is never listed. |
| CategoryInput.InArticleReadsUndefinedKey | modules/ve-mw/ui/widgets/ve.ui.MWCategoryInputWidget.js:155-164 | The in-article loop reads the redirect table under "undefined". Without that key it is a plain prefix filter. |
| CategoryInput.RedirectOverridesExistingCheck | modules/ve-mw/ui/widgets/ve.ui.MWCategoryInputWidget.js:175-181 | A suggestion with a suggesting redirect is listed as matching or hidden, even when it is already in the article. |
| CategoryInput.LastExistingOfferedAsNew | modules/ve-mw/ui/widgets/ve.ui.MWCategoryInputWidget.js:152-215 | The only category in the article, typed again, is offered as a new category. |
| CategoryInput.IntendedNeverOffersExistingAsNew | modules/ve-mw/ui/widgets/ve.ui.MWCategoryInputWidget.js:152-215 | When every existing category is scanned, a typed value already in the article is listed in the article and not offered as new. |
| CategoryInput.WidgetsFor | modules/ve-mw/ui/widgets/ve.ui.MWCategoryInputWidget.js:273-291 | A category with recorded redirects gets one item per redirect, labelled redirect to category. Otherwise it gets one plain item. Every item's data is the category. |
| CategoryInput.ItemsFor | modules/ve-mw/ui/widgets/ve.ui.MWCategoryInputWidget.js:231-236 | A group's rows are exactly the rows of its categories' widgets. Each row is an item carrying one of the group's categories. |
| CategoryInput.ItemsForAppend | modules/ve-mw/ui/widgets/ve.ui.MWCategoryInputWidget.js:231-236 | Rows come category by category in group order: the rows of two runs of categories are the first run's rows followed by the second's, and one category's rows are its widgets. |
| CategoryInput.SectionOrder | modules/ve-mw/ui/widgets/ve.ui.MWCategoryInputWidget.js:217-259 | Section headers appear in the order new, in article, matching, hidden, each exactly when its group is non-empty. |
| CategoryInput.SectionPresence | modules/ve-mw/ui/widgets/ve.ui.MWCategoryInputWidget.js:217-259 | Each of the four headers is in the menu exactly when its group is non-empty. |
| CategoryInput.NewCategoryRowFirst | modules/ve-mw/ui/widgets/ve.ui.MWCategoryInputWidget.js:218-226 | A "new category" group opens the menu with its header and one plain item for the value. |
| CategoryInput.MenuItemsFromData | modules/ve-mw/ui/widgets/ve.ui.MWCategoryInputWidget.js:125-262 | The menu as written opens with a "new category" section offering the normalised value exactly when no scan found an exact match, the in-article scan stopping before the last existing category. |
| CategoryInput.MenuOffersLastExistingAsNew | modules/ve-mw/ui/widgets/ve.ui.MWCategoryInputWidget.js:152-226 | The only category in the article, typed again, opens the menu as written as a new category. |
| CategoryInput.MenuItemsFromDataIntended | modules/ve-mw/ui/widgets/ve.ui.MWCategoryInputWidget.js:125-262 | With every existing category scanned, the "new category" section appears exactly when no exact match was found. A value already in the article gets an "in article" section and no "new category" one. |
| TableCell.AllowsParent | modules/ve/dm/nodes/ve.dm.TableCellNode.js:45 | A cell may sit only under a table row. |
| TableCell.AllowsChild | modules/ve/dm/nodes/ve.dm.TableCellNode.js:44 | A cell allows children of any type. |
| TableCell.CellIsStructural | modules/ve/dm/nodes/ve.dm.TableCellNode.js:39-46 | A cell is wrapped, is not content, cannot contain content directly, and has no significant whitespace. |
| TableCell.ToDataElement | modules/ve/dm/nodes/ve.dm.TableCellNode.js:52-55 | The element is a table cell with exactly a style attribute. That style is "header" exactly when the tag lower-cases to "th", and "data" otherwise. |
| TableCell.ToDomElement | modules/ve/dm/nodes/ve.dm.TableCellNode.js:57-60 | The result is a `th` exactly when the style is "header". Otherwise it is a `td`, including when attributes are missing. |
| TableCell.ThInAnyCase | modules/ve/dm/nodes/ve.dm.TableCellNode.js:53 | The header test accepts exactly the four letter-case spellings of "th". |
| TableCell.StyleRoundTrip | modules/ve/dm/nodes/ve.dm.TableCellNode.js:52-60 | Data to DOM and back keeps a "header" or "data" style. |
| TableCell.TagRoundTrip | modules/ve/dm/nodes/ve.dm.TableCellNode.js:50-60 | DOM to data and back keeps the tag of a `td` or `th` element, up to letter case. |
| TableCell.DefaultIsDataCell | modules/ve/dm/nodes/ve.dm.TableCellNode.js:28-30 | A cell with the default attributes, or with none, renders as `td`. |
| ReferenceList.Setup | modules/ve-mw/ui/dialogs/ve.ui.MWReferenceListDialog.js:87-118 | The dialog inserts exactly when no reference list is focused. It pre-fills the focused list's group, or "" when inserting. It labels the button accordingly and remembers the focused node, of whatever type. |
| ReferenceList.ListGroupOf | modules/ve-mw/ui/dialogs/ve.ui.MWReferenceListDialog.js:135 | The list group is "mwReference/" followed by the reference group, and the reference group can be read back from it. |
| ReferenceList.Teardown | modules/ve-mw/ui/dialogs/ve.ui.MWReferenceListDialog.js:123-171 | Nothing happens unless the action is "apply". With a remembered node, its attributes change exactly when the list group differs. Without one, a new list is inserted at the end of the selection, and the selection is then placed at the end of the inserted pair. |
| ReferenceList.ListGroupDerivation | modules/ve-mw/ui/dialogs/ve.ui.MWReferenceListDialog.js:133-165 | Every request sets the list group to "mwReference/" followed by the reference group, and sets the reference group itself. |
| ReferenceList.InsertIsBalancedPair | modules/ve-mw/ui/dialogs/ve.ui.MWReferenceListDialog.js:156-165 | An insertion is exactly one opening reference-list element, carrying both groups, followed by its closing element. |
| ReferenceList.UnchangedGroupIsNoChange | modules/ve-mw/ui/dialogs/ve.ui.MWReferenceListDialog.js:95-153 | Editing a reference list and applying with its group untouched sends nothing, provided its list group already matches its reference group. |
| ReferenceList.FocusedOtherNodeIsEdited | modules/ve-mw/ui/dialogs/ve.ui.MWReferenceListDialog.js:95-143 | With a focused image, the dialog says it inserts, yet applying it changes that image's attributes. |
| ReferenceList.TeardownIntended | modules/ve-mw/ui/dialogs/ve.ui.MWReferenceListDialog.js:123-171 | Attribute changes happen only when editing a focused node, and insertions put a new list at the selection end. |
| ReferenceList.IntendedTeardownFollowsSetup | modules/ve-mw/ui/dialogs/ve.ui.MWReferenceListDialog.js:95-165 | With the corrected teardown, a dialog set up to insert always inserts a balanced pair. One set up to edit never inserts and edits only a reference list. |
| CommandHelp.AccessKeyPrefix | modules/ve-mw/ui/dialogs/ve.ui.MWCommandHelpDialog.js:34 | The displayed access-key prefix contains no "-", and a prefix without any "-" is shown as upper-cased. |
| CommandHelp.AccessKeyPrefixReads | modules/ve-mw/ui/dialogs/ve.ui.MWCommandHelpDialog.js:34 | For any prefix, once upper-cased and cut at every "-" into dash-free parts, the displayed prefix is those parts joined by " + ": each "-" becomes " + " and every other character is kept in place. |
| CommandHelp.TwoModifierPrefix | modules/ve-mw/ui/dialogs/ve.ui.MWCommandHelpDialog.js:34 | A prefix that upper-cases to `A-B-` is displayed as `A + B + `. |
| CommandHelp.GetCommandGroups | modules/ve-mw/ui/dialogs/ve.ui.MWCommandHelpDialog.js:32-47 | Only the "other" group can change. It gains exactly one save entry at its end when the save key is neither "-" nor "". Otherwise the listing is returned unchanged. |
| CommandHelp.SaveShortcutShape | modules/ve-mw/ui/dialogs/ve.ui.MWCommandHelpDialog.js:38-43 | The save entry's one shortcut is the displayed prefix followed by the upper-cased key, under the save-dialog message. |

## Left out

- Network access. `getLookupRequest` (MWCategoryInputWidget.js:58-82) builds the server query, so it is not modelled. The server's answer is an input (`Response`).
- Widget construction and display are not modelled:
  - creating menu and result widgets, and their `$`/`autoFitLabel` options;
  - highlighting the first result (MWParameterSearchWidget.js:160-162);
  - the parent `SearchWidget`, `onQueryChange` and the template's add/remove event wiring.

  Menus and results are lists of plain values.
- JavaScript object key order. The dictionary from the server's answer is enumerated in insertion order. Real engines list integer-like keys first, so grouping order can differ for such titles.
- Title construction. `mw.Title` and its normalisation are uninterpreted functions in `Env`. The model does not cover `new mw.Title` throwing on an invalid title in the grouping and rendering code: `TitleKey` and `mainText` are total there.
- The redirect table's type. In the source it is an `Array` read with `[]`, so inherited properties could answer a lookup. The model uses a map. Real keys are prefixed category titles, which no inherited property name matches.
- The configuration reading in the category widget's constructor (MWCategoryInputWidget.js:35-36). Its results are the `Env` fields `categoryPrefix` and `forceCapitalization`.
- The `metaItem` field of a category item. It is always an empty object.
- Logging. `mw.log.warning` is modelled as a list of warnings that is returned.
- Case mapping. `toLowerCase` and `toUpperCase` are parameters wherever the source applies them to user text. Only the table cell's tag-name test uses a concrete ASCII mapping, because HTML tag names are ASCII.
- ReferenceList.Setup: a reference list without a `refGroup` attribute pre-fills "". This assumes the text box turns an undefined value into an empty string.
- CommandHelp.GetCommandGroups requires an "other" group. The generic listing always has one. Without it the source would fail on the property access.
- ReferenceList.Teardown: the selection after an insertion is placed two positions past the insertion offset. This assumes the transaction machinery inserts the two elements verbatim at the collapsed selection. It could adjust the content or the range, which the model does not promise. The same holds for `ReferenceList.TeardownIntended`.
- CategoryInput.CategoryItemFromValue: a string is a sequence of code points here, while JavaScript strings are sequences of UTF-16 code units. `substr( 0, 1 )` on a value whose first character lies outside the Basic Multilingual Plane, such as U+10428, takes half a surrogate pair. The model takes the whole character, so it does not promise the source's result for such values.
- The surface and transaction machinery are not modelled: focus, selection, fragments and `newFromAttributeChanges`. Teardown returns a description of the request it would make.
- Other VisualEditor files are not part of this model. That includes the page target's start-up code, the template page, the content-editable nodes and the parent dialogs.

## Findings

| source | as written | input that shows it | evidently intended | confidence | as-written member | corrected member |
|---|---|---|---|---|---|---|
| modules/ve-mw/ui/dialogs/ve.ui.MWReferenceListDialog.js:137 | Teardown edits whenever `this.node` is set, and setup stores the focused node of any type. | Focused image node at offset 5, action "apply": setup says "insert", teardown changes the image's attributes. | Edit only when editing a reference list, so branch on `!this.inserting`. Otherwise insert. | not executed | ReferenceList.FocusedOtherNodeIsEdited | ReferenceList.IntendedTeardownFollowsSetup |
| modules/ve-mw/ui/widgets/ve.ui.MWCategoryInputWidget.js:152 | The in-article loop runs to `length - 1` exclusive, so it skips the last existing category. | Article categories ["Foo"], typed "Foo", empty suggestions: "Foo" is offered as a new category. | Visit every existing category, so a category already in the article is listed there and never offered as new. | not executed | CategoryInput.LastExistingOfferedAsNew | CategoryInput.IntendedNeverOffersExistingAsNew |

`CategoryInput.ComputeGroups`, `CategoryInput.MenuItemsFromData` and `ReferenceList.Teardown` keep the code as written. `CategoryInput.ComputeGroupsIntended`, `CategoryInput.MenuItemsFromDataIntended` and `ReferenceList.TeardownIntended` are the corrected versions. `CategoryInput.MenuOffersLastExistingAsNew` shows the first finding on the rendered menu.
