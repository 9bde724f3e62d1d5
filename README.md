# GS1 Digital Link generator page, modelled in Dafny

This project models the generator page of the GS1 Digital Link tools
(`src/scripts/generator.js`). On that page a user picks a resolver domain
and an identifier and types values. The page then:

- composes a GS1 Digital Link URI from those values;
- picks the grammar start rule the URI is checked against;
- records the grammar's verdict;
- keeps the custom data attribute table with exactly one blank row to
  type into;
- shows or hides the key qualifier and GS1 data attribute rows.

The project has six modules:

- `Text`: string functions over `seq<char>`. `Includes` is JavaScript's
  `includes`, the only string built-in the model defines. The page's
  other string calls are modelled elsewhere: `substring` is written
  inside `Display.Truncate`, and `toLowerCase` is the page's `lower`
  parameter. `Join` describes
  what the page's `/` and `&` concatenation loops build. `IndexOf` and
  `Split` exist only for the link reader `ParseLink`, which has no
  counterpart in the page.
- `Catalog`: the reference data. The identifier, key qualifier and AI
  tables, the alias map, and the three domain presets.
- `Compose`: `mapAlphaNumeric` and `customAttributesSpecified`.
  `ComposeLink` is the specification of `updateDigitalLink`. `StartRule`
  is its start-rule choice. `ParseLink` reads a link back into path
  segments and query pairs. The lemmas prove that reading a composed link
  back recovers the segments and pairs the page serialised.
- `CustomRows`: the custom attribute table. It is a sequence of indices
  into the append-only list of model items `customAttributes`.
  `updateCustomAttributeRows` deletes blank rows, but it advances its
  index after a deletion too, so the row that moves into the freed slot is
  not examined. `Sweep` is that loop as written. `SkipSweep` is an
  independent description: a blank row goes unless the row just before it
  went. The lemmas prove four things about the table:
  - what it keeps;
  - that it always ends with a blank row;
  - that from the page's steady state (one blank row, the last) every
    edit returns to that state;
  - that the items of deleted rows never reach the link.
- `Display`: `truncate` (a function), `searchAiList` (a recursive
  function over the list), and the two row-visibility updates (loops
  proved against their specifications).
- `Generator`: the page as a class. Its fields are the state the handlers
  update. Its methods have `modifies` frames. They are
  `updateDigitalLink` and the custom table operations, plus the page's
  input handlers:
  - the domain, format, identifier and search handlers set in `setupUI`;
  - the key qualifier handler set in `insertKeyQualifierRow`;
  - the GS1 attribute handler set in `insertAttributeRow`;
  - the custom key and value handlers set in `addCustomAttributeRow`. The class invariant `Valid` says four things:
  - the catalog-shaped fields match the catalogs;
  - the custom table is consistent with the model list;
  - the table ends in its single blank row;
  - the shown link, start rule and verdict are those of the current state.

  Every handler keeps `Valid`. The loops of `updateDigitalLink` are
  methods proved equal to `ComposeLink`.

The start rule follows the code, not the domain. The page tests whether
the composed text contains `id.gs1.org` anywhere
(`src/scripts/generator.js:137`). It does not check whether the domain is
the canonical resolver. `MarkerInValueRule` shows the difference: an
identifier value containing `id.gs1.org` selects the canonical grammar
whatever domain is chosen.

## Model

| member | source | states |
|---|---|---|
| Text.IncludesIffOccurs | src/scripts/generator.js:137 | `includes` holds exactly when the marker occurs at some offset of the link |
| Text.SplitJoin | src/scripts/generator.js:105-135 | splitting a '/'- or '&'-joined list of separator-free parts gives back the parts, so the serialisation is reversible |
| Catalog.FindIdentifier | src/scripts/generator.js:103 | `find` returns an entry exactly when some entry has the code, and the entry returned has that code |
| Catalog.FindIdentifierFirst | src/scripts/generator.js:103 | the entry `find` returns is the first one in the list with that code |
| Compose.CodeSegments | src/scripts/generator.js:105-111 | the composed path has the identifier's code segment (its alias when `mapAlphaNumeric` gives one) and verbatim value at positions 3 and 4, and each valued key qualifier's code segment followed by its value later on |
| Compose.AliasedCodeSegments | src/scripts/generator.js:92-110 | in the link read back, the identifier's code segment is its non-empty alias when the alphanumeric box is ticked, and the code otherwise, followed by the verbatim value; each valued key qualifier appears as a code segment chosen the same way, followed by its value |
| Compose.ValuedQualifierSegments | src/scripts/generator.js:108-111 | every key qualifier with a value contributes its written code and then its value as adjacent path segments |
| Compose.QueryPresentIffParams | src/scripts/generator.js:113-129 | `queryPresent` holds exactly when the query parameter list is non-empty |
| Compose.QualifierPathAppend | src/scripts/generator.js:107-111 | key qualifier contributions concatenate in catalog order |
| Compose.AttributePairsAppend | src/scripts/generator.js:120-122 | GS1 attribute pairs concatenate in `AI_LIST` order |
| Compose.CustomPairsAppend | src/scripts/generator.js:124-129 | custom pairs concatenate in insertion order |
| Compose.AttributePairsMembers | src/scripts/generator.js:120-122 | a pair is serialised exactly when an AI with that raw code has that non-empty value |
| Compose.CustomPairsMembers | src/scripts/generator.js:124-129 | a custom pair is serialised exactly when a custom item has that key and value, both non-empty |
| Compose.SegmentJoin | src/scripts/generator.js:110 | a qualifier with a value adds `/code/value` (code mapped, value verbatim); one without adds nothing |
| Compose.QualifierPathJoin | src/scripts/generator.js:107-111 | the qualifier path extends a '/'-joined prefix by each valued qualifier's code and value, in catalog order |
| Compose.PathIsJoinedSegments | src/scripts/generator.js:105-111 | the path is `https:`, "", domain, mapped identifier code, verbatim identifier value, then each valued qualifier's mapped code and value, joined by '/' |
| Compose.ParsePairsOfTexts | src/scripts/generator.js:131-135 | each `key=value` text splits back into its pair when the key has no '=' |
| Compose.PathRoundTrip | src/scripts/generator.js:105-135 | whatever the query holds, the part of the link before its first '?' splits back into exactly the path segments |
| Compose.ComposeParse | src/scripts/generator.js:96-135 | reading the composed link back gives its path segments, and gives its query pairs (GS1 attributes with raw codes first, then custom pairs, no leading '&') exactly when some contributor exists; otherwise there is no query |
| Compose.QuestionMarkIffQuery | src/scripts/generator.js:113-116 | with '?'-free path segments, the link holds a '?' exactly when some attribute or custom pair contributes |
| Compose.OccursInHead | src/scripts/generator.js:137 | a marker inside the head selects the canonical rule |
| Compose.CanonicalDomainRule | src/scripts/generator.js:137 | with the `id.gs1.org` domain selected, the start rule is `canonicalGS1webURI` |
| Compose.MarkerInValueRule | src/scripts/generator.js:105-137 | a marker inside the identifier value selects the canonical rule whatever the domain |
| Compose.CustomRuleIffNoMarker | src/scripts/generator.js:137 | `customGS1webURI` is chosen exactly when `id.gs1.org` occurs nowhere in the link |
| Compose.DefaultGtinHead | src/scripts/generator.js:105 | the default GTIN on `id.gs1.org` gives the head `https://id.gs1.org/01/9780345418913` |
| Compose.BlankQualifiersNoPath | src/scripts/generator.js:108-111 | key qualifiers without values add nothing to the path |
| Compose.BlankAttributesNoPairs | src/scripts/generator.js:121-122 | GS1 attributes without values give no query pairs |
| Compose.OneValuedAttributePairs | src/scripts/generator.js:121-122 | when exactly one AI of the list has a value, it gives the single pair `(code, value)` |
| Compose.NoCustomPairs | src/scripts/generator.js:125-129 | with no custom row holding both a key and a value, no custom pair is serialised |
| Compose.SingleAttributeQuery | src/scripts/generator.js:113-135 | one valued AI among any number of empty ones, and no complete custom row (blank rows allowed), give a query whose text is the single `code=value` |
| Compose.DefaultGtinLink | src/scripts/generator.js:96-135 | the default GTIN on `id.gs1.org`, with an empty key qualifier, an empty AI and the one blank custom row, composes to `https://id.gs1.org/01/9780345418913` |
| Compose.BatchAttributeLink | src/scripts/generator.js:96-135 | on the same page, batch `ABC123` (AI 10) typed in and serial (AI 21) empty gives `https://id.gs1.org/01/9780345418913?10=ABC123` |
| CustomRows.TableHasEmptyRows | src/scripts/generator.js:215-225 | the scan answers true exactly when some row has an empty key and an empty value |
| CustomRows.SweepIsSkipSweep | src/scripts/generator.js:228-235 | the deletion loop as written equals the reference sweep, in which a blank row survives exactly when the row before it was deleted |
| CustomRows.SweepKeepsFilled | src/scripts/generator.js:228-235 | the deletion loop never deletes a row with a key or a value, and keeps rows in order (a subsequence) |
| CustomRows.AdjacentBlankRowSurvives | src/scripts/generator.js:228-242 | two adjacent blank rows: the first is deleted, the second is skipped and kept, and no row is added |
| CustomRows.UpdateLeavesBlankRow | src/scripts/generator.js:227-242 | afterwards a blank row exists, the filled rows are unchanged, and the model list is unchanged or grew by one blank item |
| CustomRows.SeparateBlanksRefill | src/scripts/generator.js:227-242 | with no two blank rows adjacent, every blank row goes and the fresh row is the single blank, last row |
| CustomRows.BlankPairKeepsLast | src/scripts/generator.js:227-242 | filled rows followed by two blank rows leave the second blank row as the single blank, last row |
| CustomRows.EditKeepsTrailingBlank | src/scripts/generator.js:264-276 | from the steady state (one blank row, the last), any edit of one row followed by the update restores the steady state |
| CustomRows.EditKeepsConsistent | src/scripts/generator.js:264-273 | typing into a row changes only the item that row shows, so deleted rows' items stay blank |
| CustomRows.UpdateKeepsConsistent | src/scripts/generator.js:227-242 | the update keeps rows in creation order, pointing at existing items, with every undisplayed item blank |
| CustomRows.TableDeterminesCustomPairs | src/scripts/generator.js:124-129 | the custom pairs of the whole model list equal those of the items the rows show, in table order |
| Display.Truncate | src/scripts/generator.js:52-56 | a label shorter than 48 is kept; a longer one becomes its first 46 characters and "...", 49 in all |
| Display.TruncateIdempotent | src/scripts/generator.js:52-56 | a shown label is at most 49 long, and truncating it again changes nothing |
| Display.MatchingIndices | src/scripts/generator.js:212 | exactly the entries whose lower-cased label contains the query or whose code equals it, each once, in list order |
| Display.SearchAiList | src/scripts/generator.js:209-213 | no results for an empty query; otherwise exactly the matching entries, each once, in `AI_LIST` order |
| Display.RowsWithValues | src/scripts/generator.js:294 | after the first pass a row is visible exactly when it has a value |
| Display.VisibleKeyQualifiers | src/scripts/generator.js:292-300 | a key qualifier row is visible exactly when it has a value or is relevant to the identifier |
| Display.VisibleAttributes | src/scripts/generator.js:364-371 | an attribute row is visible exactly when it has a value or the query is non-empty and matches it |
| Generator.Page.constructor | src/scripts/generator.js:397-401 | the start-up state: all values empty, one blank custom row, default identifier value, second identifier selected, domain and format boxes as given, link current, the identifier's key qualifiers shown, no attribute shown |
| Generator.Page.UpdateDigitalLink | src/scripts/generator.js:96-144 | the shown link is the composed one, its start rule follows the marker test, and its verdict is the grammar's |
| Generator.Page.AddCustomAttributeRow | src/scripts/generator.js:244-260 | a blank item is appended to the model list and shown by a new last row |
| Generator.Page.UpdateCustomAttributeRows | src/scripts/generator.js:227-242 | the new table and model list are those of the deletion loop followed by the refill rule |
| Generator.Page.SetCustomKey | src/scripts/generator.js:263-269 | the row's item takes the typed key, the table is updated, and the invariant (with the link) is kept |
| Generator.Page.SetCustomValue | src/scripts/generator.js:270-276 | the row's item takes the typed value, the table is updated, and the invariant (with the link) is kept |
| Generator.Page.EditCustomRow | src/scripts/generator.js:264-276 | the shared part of both custom handlers: edit, update the table, recompose |
| Generator.Page.EditCustomItem | src/scripts/generator.js:264-276 | after an edit and the update, the table is consistent and ends in its single blank row, with the same filled rows |
| Generator.Page.SetKeyQualifierValue | src/scripts/generator.js:172-177 | only that qualifier's value changes, and the link is recomposed |
| Generator.Page.SetAttributeValue | src/scripts/generator.js:195-198 | only that attribute's value changes, and the link is recomposed |
| Generator.Page.SetIdentifierValue | src/scripts/generator.js:337-340 | the identifier value changes, and the link is recomposed |
| Generator.Page.SelectIdentifier | src/scripts/generator.js:348-353 | the link is recomposed for the new identifier, and its relevant key qualifiers and the valued ones are shown |
| Generator.Page.SelectDomain | src/scripts/generator.js:321-324 | the link is recomposed, and choosing `id.gs1.org` always yields the canonical start rule |
| Generator.Page.SetCustomDomainUrl | src/scripts/generator.js:327-330 | the custom url changes, and the link changes only while the custom domain is selected |
| Generator.Page.SetAlphanumeric | src/scripts/generator.js:333 | the format flag changes, and the link is recomposed |
| Generator.Page.SetNumeric | src/scripts/generator.js:334 | the numeric box has no effect: the link, start rule and verdict are unchanged |
| Generator.Page.UpdateVisibleKeyQualifiers | src/scripts/generator.js:292-300 | each key qualifier row is visible exactly when it has a value or the selected identifier lists it |
| Generator.Page.SearchAttributes | src/scripts/generator.js:364-371 | each attribute row is visible exactly when it has a value or matches a non-empty query |
| Generator.Page.LinkShowsTable | src/scripts/generator.js:118-129 | the link's query pairs are the valued GS1 attributes, then the complete pairs of the rows shown, in table order |
| Generator.BuildLink | src/scripts/generator.js:96-135 | the text the loops build is `ComposeLink` of the page's input |
| Generator.AppendKeyQualifiers | src/scripts/generator.js:107-111 | the loop appends exactly the qualifier path |
| Generator.CollectQueryParams | src/scripts/generator.js:118-129 | the loops collect the valued GS1 attributes, then the complete custom pairs |
| Generator.AppendQueryParams | src/scripts/generator.js:131-135 | the loop appends the pair texts joined by '&', with no leading '&' |

## Left out

- The DOM is not modelled: element lookup, `innerHTML`, row insertion and
  styles. The link, its verdict and row visibility are kept as fields of
  the page instead.
- The QR code (`generateClassicQrCode`, `updateQrCode`, the QR style
  selector) is not modelled. It only renders the link.
- The "run verifier" button (`window.open`) and the verdict image are not
  modelled.
- Showing and hiding the qualifier, attribute and custom groups is not
  modelled.
- `parser.validate` is the page's `grammar` parameter, and `parser.js` is
  not part of this model.
- `validateKeyQualifier`, `validateIdentifier` and
  `updateIdentifierValueLabel` are not modelled. They only set icons and a
  label from the grammar's answers, and feed nothing back.
  `SelectIdentifier` therefore leaves them out of its handler.
- `toLowerCase` is the page's `lower` parameter, because Unicode case
  mapping is outside the model.
- Strings are sequences of characters, not UTF-16 code units. `Truncate`
  counts characters.
- The catalog tables' contents (the JSON data) are constructor parameters.
  No entry is fixed.
- The initially selected domain option and the initial state of the
  alphanumeric and numeric format boxes come from the page's HTML. The
  script never sets them, so they are constructor parameters.
- The domain selector is modelled as the three presets, looked up by
  choice rather than by option value.
- `queryPresent` reads the attribute inputs' DOM values, and the
  parameters read `item.value`. Every attribute input handler copies the
  one into the other before recomposing, so the model keeps one value.
- `searchAiList` returns the matching entries' positions in `AI_LIST`,
  not the entries themselves.
- Generator.Page.constructor: it computes key qualifier visibility before
  composing the link. The start-up code does it after, but the two update
  disjoint state, so the end state is the same.
- Generator.Page.constructor: requires at least two identifiers. The
  start-up code selects `IDENTIFIER_LIST[1]`, and with a shorter list it
  throws; that error path is not modelled.
- Generator.Page.UpdateDigitalLink: it requires the selected identifier to
  be in the catalog. The page would throw otherwise, and the selector only
  offers catalog codes.
