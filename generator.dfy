/**
 * The generator page as one object: the state its handlers read and
 * update (typed values, selections, the custom attribute table, the
 * composed link, its start rule and verdict, row visibility) and the
 * handlers themselves.
 *
 * The catalog tables, the grammar check (`parser.validate`) and the
 * lower-casing used by the search are fixed when the page is built and
 * never change. `Valid` is the invariant every handler keeps: the table
 * is consistent with the model list and ends in its single blank row,
 * and the shown link, start rule and verdict are those of the current
 * state.
 */
module Generator {
  import opened Text
  import opened Catalog
  import opened Compose
  import CustomRows
  import Display

  class Page {
    const keyQualifierList: seq<CatalogEntry>
    const identifierList: seq<IdentifierDef>
    const aiList: seq<CatalogEntry>
    const alphaMap: map<string, string>
    /** `parser.validate(text, startRule)`. */
    const grammar: (string, string) -> bool
    /** `String.prototype.toLowerCase`. */
    const lower: string -> string

    /** `KEY_QUALIFIERS_LIST` as the page updates it: each entry's code and the value typed into its row. */
    var keyQualifiers: seq<Field>
    /** `AI_LIST` as the page updates it: each entry's code and the value typed into its row. */
    var attributes: seq<Field>
    var identifierCode: string
    var identifierValue: string
    var domain: DomainChoice
    /** `DOMAINS.CUSTOM.url`, edited through the custom domain box. */
    var customDomainUrl: string
    var alphanumeric: bool
    var numeric: bool
    /** `customAttributes`, the model items, only ever appended to. */
    var customAttributes: seq<CustomAttribute>
    /** The custom attribute table: for each row, the index of the item it shows. */
    var rows: seq<nat>
    var keyQualifierVisible: seq<bool>
    var aiVisible: seq<bool>
    var digitalLink: string
    var startRule: string
    var linkValid: bool

    /** One entry per catalog row, with the catalog's code, and a selectable identifier. */
    ghost predicate Shaped()
      reads this`keyQualifiers, this`attributes, this`keyQualifierVisible, this`aiVisible, this`identifierCode
    {
      |keyQualifiers| == |keyQualifierList| && |attributes| == |aiList| &&
      (forall i :: 0 <= i < |keyQualifiers| ==> keyQualifiers[i].code == keyQualifierList[i].code) &&
      (forall i :: 0 <= i < |attributes| ==> attributes[i].code == aiList[i].code) &&
      |keyQualifierVisible| == |keyQualifierList| && |aiVisible| == |aiList| &&
      FindIdentifier(identifierList, identifierCode).Some?
    }

    /** What the composer reads from the page. */
    function Input(): LinkInput
      reads this`domain, this`customDomainUrl, this`identifierCode, this`identifierValue, this`alphanumeric
      reads this`keyQualifiers, this`attributes, this`customAttributes
    {
      LinkInput(DomainUrl(domain, customDomainUrl), identifierCode, identifierValue, alphanumeric, alphaMap,
                keyQualifiers, attributes, customAttributes)
    }

    /** The shown link, start rule and verdict are those of the current state. */
    ghost predicate LinkCurrent()
      reads this`domain, this`customDomainUrl, this`identifierCode, this`identifierValue, this`alphanumeric
      reads this`keyQualifiers, this`attributes, this`customAttributes
      reads this`digitalLink, this`startRule, this`linkValid
    {
      // Stated for every input equal to the page's, so that the composer's
      // definition is unfolded only where a proof names that input.
      forall s :: s == Input() ==> Shows(s)
    }

    /** The shown link is the one composed from `s`, with its start rule and verdict. */
    ghost predicate Shows(s: LinkInput)
      reads this`digitalLink, this`startRule, this`linkValid
    {
      digitalLink == ComposeLink(s) &&
      startRule == StartRule(digitalLink) &&
      linkValid == grammar(digitalLink, startRule)
    }

    /** The custom table agrees with the model list and ends in its single blank row. */
    ghost predicate TableValid()
      reads this`rows, this`customAttributes
    {
      CustomRows.Consistent(rows, customAttributes) && CustomRows.TrailingBlank(rows, customAttributes)
    }

    ghost predicate Valid()
      reads this
    {
      Shaped() && TableValid() && LinkCurrent()
    }

    /**
     * The page as the start-up code leaves it: tables injected (one blank
     * custom row), the custom domain box and identifier value filled with
     * their defaults, the second identifier selected, the link composed
     * and the key qualifiers of that identifier shown. The domain option
     * and the two format boxes start as the page's markup sets them, so
     * they are parameters.
     */
    constructor (keyQualifierList: seq<CatalogEntry>, identifierList: seq<IdentifierDef>,
                 aiList: seq<CatalogEntry>, alphaMap: map<string, string>,
                 grammar: (string, string) -> bool, lower: string -> string,
                 domain: DomainChoice, alphanumeric: bool, numeric: bool)
      requires |identifierList| >= 2
      ensures Valid()
      ensures this.keyQualifierList == keyQualifierList && this.identifierList == identifierList
      ensures this.aiList == aiList && this.alphaMap == alphaMap
      ensures this.grammar == grammar && this.lower == lower && this.domain == domain
      ensures identifierCode == identifierList[1].code && identifierValue == DEFAULT_GTIN_VALUE
      ensures customDomainUrl == CUSTOM_DEFAULT_URL
      ensures this.alphanumeric == alphanumeric && this.numeric == numeric
      ensures rows == [0] && customAttributes == [CustomRows.EMPTY_ATTRIBUTE]
      ensures keyQualifiers == Blanked(keyQualifierList) && attributes == Blanked(aiList)
      ensures forall i :: 0 <= i < |keyQualifierVisible| ==>
                keyQualifierVisible[i] ==
                (keyQualifierList[i].code in FindIdentifier(identifierList, identifierList[1].code).value.keyQualifiers)
      ensures forall i :: 0 <= i < |aiVisible| ==> !aiVisible[i]
    {
      this.keyQualifierList := keyQualifierList;
      this.identifierList := identifierList;
      this.aiList := aiList;
      this.alphaMap := alphaMap;
      this.grammar := grammar;
      this.lower := lower;
      this.domain := domain;
      var quals := Blanked(keyQualifierList);
      keyQualifiers := quals;
      attributes := Blanked(aiList);
      var identifier := FindIdentifier(identifierList, identifierList[1].code);
      assert identifier.Some?;
      var visible := Display.VisibleKeyQualifiers(quals, identifier.value);
      keyQualifierVisible := visible;
      aiVisible := seq(|aiList|, _ => false);
      customAttributes := [];
      rows := [];
      customDomainUrl := CUSTOM_DEFAULT_URL;
      identifierValue := DEFAULT_GTIN_VALUE;
      identifierCode := identifierList[1].code;
      this.alphanumeric := alphanumeric;
      this.numeric := numeric;
      digitalLink := "";
      startRule := "";
      linkValid := false;
      new;
      AddCustomAttributeRow();
      UpdateDigitalLink();
    }

    // -------------------------------------------------------------------
    // Composing the link

    /**
     * `updateDigitalLink`: builds the link, picks the start rule and
     * records the grammar's verdict. The selected identifier must be in
     * the catalog (the page reads its code).
     */
    method UpdateDigitalLink()
      requires FindIdentifier(identifierList, identifierCode).Some?
      modifies this`digitalLink, this`startRule, this`linkValid
      ensures LinkCurrent()
    {
      var s := Input();
      var link := BuildLink(s);
      startRule := if Includes(link, CANONICAL_MARKER) then CANONICAL_RULE else CUSTOM_RULE;
      linkValid := grammar(link, startRule);
      digitalLink := link;
      assert Shows(s);
    }

    // -------------------------------------------------------------------
    // The custom data attribute table

    /** `addCustomAttributeRow`: a new blank item, shown by a new last row. */
    method AddCustomAttributeRow()
      modifies this`rows, this`customAttributes
      ensures rows == old(rows) + [|old(customAttributes)|]
      ensures customAttributes == old(customAttributes) + [CustomRows.EMPTY_ATTRIBUTE]
    {
      rows := rows + [|customAttributes|];
      customAttributes := customAttributes + [CustomRows.EMPTY_ATTRIBUTE];
    }

    /**
     * `updateCustomAttributeRows`: the deletion loop (which moves on after
     * a deletion too), then a new row when the table is empty or has no
     * blank row left.
     */
    method UpdateCustomAttributeRows()
      modifies this`rows, this`customAttributes
      ensures (rows, customAttributes) == CustomRows.Update(old(rows), old(customAttributes))
    {
      var i := 0;
      while i < |rows|
        invariant i <= |rows| + 1
        invariant customAttributes == old(customAttributes)
        invariant CustomRows.Sweep(rows, customAttributes, i) == CustomRows.Sweep(old(rows), customAttributes, 0)
        decreases |rows| + 1 - i
      {
        if CustomRows.Blank(customAttributes, rows[i]) {
          rows := rows[..i] + rows[i + 1..];
        }
        i := i + 1;
      }
      if |rows| == 0 {
        AddCustomAttributeRow();
      } else {
        var found := CustomRows.TableHasEmptyRows(rows, customAttributes);
        if !found {
          AddCustomAttributeRow();
        }
      }
    }

    /** Typing into the key box of table row `j`. */
    method SetCustomKey(j: nat, key: string)
      requires Valid() && j < |rows|
      modifies this`rows, this`customAttributes, this`digitalLink, this`startRule, this`linkValid
      ensures Valid()
      ensures (rows, customAttributes) ==
              CustomRows.Update(old(rows), old(customAttributes)[old(rows)[j] :=
                                CustomAttribute(key, old(customAttributes)[old(rows)[j]].value)])
    {
      EditCustomRow(j, CustomAttribute(key, customAttributes[rows[j]].value));
    }

    /** Typing into the value box of table row `j`. */
    method SetCustomValue(j: nat, value: string)
      requires Valid() && j < |rows|
      modifies this`rows, this`customAttributes, this`digitalLink, this`startRule, this`linkValid
      ensures Valid()
      ensures (rows, customAttributes) ==
              CustomRows.Update(old(rows), old(customAttributes)[old(rows)[j] :=
                                CustomAttribute(old(customAttributes)[old(rows)[j]].key, value)])
    {
      EditCustomRow(j, CustomAttribute(customAttributes[rows[j]].key, value));
    }

    /** What both input handlers of a custom row do once the model item holds `a`. */
    method EditCustomRow(j: nat, a: CustomAttribute)
      requires Valid() && j < |rows|
      modifies this`rows, this`customAttributes, this`digitalLink, this`startRule, this`linkValid
      ensures Valid()
      ensures (rows, customAttributes) == CustomRows.Update(old(rows), old(customAttributes)[old(rows)[j] := a])
    {
      EditCustomItem(j, a);
      UpdateDigitalLink();
    }

    /**
     * The model item of row `j` takes the typed text, then
     * `updateCustomAttributeRows` runs: the table stays consistent with
     * the model list and ends in its single blank row, and the rows with
     * content are the same rows as after the edit.
     */
    method EditCustomItem(j: nat, a: CustomAttribute)
      requires TableValid() && j < |rows|
      modifies this`rows, this`customAttributes
      ensures TableValid()
      ensures (rows, customAttributes) == CustomRows.Update(old(rows), old(customAttributes)[old(rows)[j] := a])
      ensures CustomRows.Filled(rows, customAttributes) ==
              CustomRows.Filled(old(rows), old(customAttributes)[old(rows)[j] := a])
    {
      CustomRows.EditKeepsConsistent(rows, customAttributes, j, a);
      CustomRows.EditKeepsTrailingBlank(rows, customAttributes, j, a);
      customAttributes := customAttributes[rows[j] := a];
      CustomRows.UpdateKeepsConsistent(rows, customAttributes);
      CustomRows.UpdateLeavesBlankRow(rows, customAttributes);
      UpdateCustomAttributeRows();
    }

    // -------------------------------------------------------------------
    // Typed values and selections

    /** Typing into key qualifier row `i` (its value is stored on the list entry). */
    method SetKeyQualifierValue(i: nat, value: string)
      requires Valid() && i < |keyQualifierList|
      modifies this`keyQualifiers, this`digitalLink, this`startRule, this`linkValid
      ensures Valid()
      ensures keyQualifiers == old(keyQualifiers)[i := Field(old(keyQualifiers)[i].code, value)]
    {
      keyQualifiers := keyQualifiers[i := Field(keyQualifiers[i].code, value)];
      UpdateDigitalLink();
    }

    /** Typing into GS1 attribute row `i` (its value is stored on the list entry). */
    method SetAttributeValue(i: nat, value: string)
      requires Valid() && i < |aiList|
      modifies this`attributes, this`digitalLink, this`startRule, this`linkValid
      ensures Valid()
      ensures attributes == old(attributes)[i := Field(old(attributes)[i].code, value)]
    {
      attributes := attributes[i := Field(attributes[i].code, value)];
      UpdateDigitalLink();
    }

    /** Typing into the identifier value box. */
    method SetIdentifierValue(value: string)
      requires Valid()
      modifies this`identifierValue, this`digitalLink, this`startRule, this`linkValid
      ensures Valid()
      ensures identifierValue == value
    {
      identifierValue := value;
      UpdateDigitalLink();
    }

    /**
     * Choosing an identifier (the selector offers only catalog codes):
     * the link is recomposed and the key qualifier rows are shown anew.
     */
    method SelectIdentifier(code: string)
      requires Valid() && FindIdentifier(identifierList, code).Some?
      modifies this`identifierCode, this`digitalLink, this`startRule, this`linkValid, this`keyQualifierVisible
      ensures Valid()
      ensures identifierCode == code
      ensures forall i :: 0 <= i < |keyQualifiers| ==>
                keyQualifierVisible[i] ==
                (keyQualifiers[i].value != "" ||
                 keyQualifiers[i].code in FindIdentifier(identifierList, code).value.keyQualifiers)
    {
      identifierCode := code;
      UpdateDigitalLink();
      UpdateVisibleKeyQualifiers();
    }

    /** Choosing a domain preset; the canonical one always gets the canonical grammar. */
    method SelectDomain(choice: DomainChoice)
      requires Valid()
      modifies this`domain, this`digitalLink, this`startRule, this`linkValid
      ensures Valid()
      ensures domain == choice
      ensures choice == IdGs1 ==> startRule == CANONICAL_RULE
    {
      domain := choice;
      UpdateDigitalLink();
      if choice == IdGs1 {
        assert Shows(Input());
        CanonicalDomainRule(Input());
      }
    }

    /** Editing the custom domain; the link changes only while the custom domain is selected. */
    method SetCustomDomainUrl(url: string)
      requires Valid()
      modifies this`customDomainUrl, this`digitalLink, this`startRule, this`linkValid
      ensures Valid()
      ensures customDomainUrl == url
      ensures domain != Custom ==> digitalLink == old(digitalLink)
    {
      ghost var s := Input();
      if domain != Custom {
        assert Shows(s);
      }
      customDomainUrl := url;
      if domain != Custom {
        assert Input() == s;
      }
      UpdateDigitalLink();
      if domain != Custom {
        assert Shows(s);
      }
    }

    /** Ticking or clearing the alphanumeric format box. */
    method SetAlphanumeric(on: bool)
      requires Valid()
      modifies this`alphanumeric, this`digitalLink, this`startRule, this`linkValid
      ensures Valid()
      ensures alphanumeric == on
    {
      alphanumeric := on;
      UpdateDigitalLink();
    }

    /** Ticking or clearing the numeric format box recomposes the same link. */
    method SetNumeric(on: bool)
      requires Valid()
      modifies this`numeric, this`digitalLink, this`startRule, this`linkValid
      ensures Valid()
      ensures numeric == on
      ensures digitalLink == old(digitalLink) && startRule == old(startRule) && linkValid == old(linkValid)
    {
      ghost var s := Input();
      assert Shows(s);
      numeric := on;
      assert Input() == s;
      UpdateDigitalLink();
      assert Shows(s);
    }

    // -------------------------------------------------------------------
    // Row visibility

    /** `updateVisibleKeyQualifiers` for the selected identifier. */
    method UpdateVisibleKeyQualifiers()
      requires FindIdentifier(identifierList, identifierCode).Some?
      modifies this`keyQualifierVisible
      ensures |keyQualifierVisible| == |keyQualifiers|
      ensures forall i :: 0 <= i < |keyQualifiers| ==>
                keyQualifierVisible[i] ==
                (keyQualifiers[i].value != "" ||
                 keyQualifiers[i].code in FindIdentifier(identifierList, identifierCode).value.keyQualifiers)
    {
      var identifier := FindIdentifier(identifierList, identifierCode).value;
      keyQualifierVisible := Display.VisibleKeyQualifiers(keyQualifiers, identifier);
    }

    /** Typing into the attribute search box. */
    method SearchAttributes(query: string)
      requires Valid()
      modifies this`aiVisible
      ensures Valid()
      ensures forall i :: 0 <= i < |aiList| ==>
                aiVisible[i] == (attributes[i].value != "" || (query != "" && Display.Matches(aiList[i], query, lower)))
    {
      aiVisible := Display.VisibleAttributes(aiList, attributes, query, lower);
    }

    /**
     * What the link serialises of the custom table is what the rows show,
     * top to bottom: items of deleted rows never contribute.
     */
    lemma LinkShowsTable()
      requires Valid()
      ensures QueryParams(Input()) ==
              AttributePairs(attributes) + CustomPairs(CustomRows.RowAttributes(rows, customAttributes))
    {
      CustomRows.TableDeterminesCustomPairs(rows, customAttributes);
    }
  }

  /** Each catalog entry's code with no value typed yet. */
  function Blanked(entries: seq<CatalogEntry>): (fields: seq<Field>)
    ensures |fields| == |entries|
    ensures forall i :: 0 <= i < |entries| ==> fields[i] == Field(entries[i].code, "")
  {
    seq(|entries|, i requires 0 <= i < |entries| => Field(entries[i].code, ""))
  }

  // ---------------------------------------------------------------------
  // The loops of updateDigitalLink

  /**
   * The link text `updateDigitalLink` builds: the head, each key
   * qualifier with a value, '?' when some query contributor exists, then
   * the `key=value` pairs joined by '&'.
   */
  method BuildLink(s: LinkInput) returns (link: string)
    ensures link == ComposeLink(s)
  {
    link := "https://" + s.domainUrl + "/" + MapAlphaNumeric(s.identifierCode, s.alphanumeric, s.alphaMap)
            + "/" + s.identifierValue;

    // Key qualifiers
    link := AppendKeyQualifiers(link, s, s.qualifiers);
    ghost var path := link;

    // Query params present?
    var queryPresent := (exists j :: 0 <= j < |s.attributes| && s.attributes[j].value != "")
                        || CustomAttributesSpecified(s.customAttributes);
    if queryPresent {
      link := link + "?";
    }
    assert link == path + (if QueryPresent(s) then "?" else "");

    // GS1 data attributes, then custom data attributes, joined by '&'
    var params := CollectQueryParams(s.attributes, s.customAttributes);
    link := AppendQueryParams(link, params);
  }

  /** Appends `/{code}/{value}` for each key qualifier with a value, in list order. */
  method AppendKeyQualifiers(link: string, s: LinkInput, fields: seq<Field>) returns (r: string)
    ensures r == link + QualifierPath(s, fields)
  {
    r := link;
    var i := 0;
    while i < |fields|
      invariant i <= |fields|
      invariant r == link + QualifierPath(s, fields[..i])
    {
      if fields[i].value != "" {
        r := r + ("/" + MapAlphaNumeric(fields[i].code, s.alphanumeric, s.alphaMap) + "/" + fields[i].value);
      }
      QualifierPathStep(s, fields, i);
      AppendAssoc(link, QualifierPath(s, fields[..i]), QualifierSegment(s, fields[i]));
      i := i + 1;
    }
    assert fields[..i] == fields;
  }

  /** `queryParams`: the GS1 attributes with a value, then the complete custom pairs. */
  method CollectQueryParams(attributes: seq<Field>, custom: seq<CustomAttribute>)
    returns (params: seq<(string, string)>)
    ensures params == AttributePairs(attributes) + CustomPairs(custom)
  {
    params := [];
    var k := 0;
    while k < |attributes|
      invariant k <= |attributes|
      invariant params == AttributePairs(attributes[..k])
    {
      if attributes[k].value != "" {
        params := params + [(attributes[k].code, attributes[k].value)];
      }
      AttributePairsStep(attributes, k);
      k := k + 1;
    }
    assert attributes[..k] == attributes;
    var m := 0;
    while m < |custom|
      invariant m <= |custom|
      invariant params == AttributePairs(attributes) + CustomPairs(custom[..m])
    {
      var item := custom[m];
      if item.key != "" && item.value != "" {
        params := params + [(item.key, item.value)];
      }
      CustomPairsStep(custom, m);
      m := m + 1;
    }
    assert custom[..m] == custom;
  }

  /** Appends each pair as `key=value`, with '&' before every pair but the first. */
  method AppendQueryParams(link: string, params: seq<(string, string)>) returns (r: string)
    ensures r == link + Join(PairTexts(params), '&')
  {
    r := link;
    var n := 0;
    while n < |params|
      invariant n <= |params|
      invariant r == link + Join(PairTexts(params[..n]), '&')
    {
      ghost var done := Join(PairTexts(params[..n]), '&');
      ghost var sep := if n != 0 then "&" else "";
      if n != 0 {
        r := r + "&";
      }
      r := r + (params[n].0 + "=" + params[n].1);
      JoinStep(params, n);
      AppendAssoc(link, done, sep);
      AppendAssoc(link, done + sep, PairText(params[n]));
      n := n + 1;
    }
    assert params[..n] == params;
  }

  // ---------------------------------------------------------------------
  // One step of each loop of updateDigitalLink

  lemma QualifierPathStep(s: LinkInput, fields: seq<Field>, i: nat)
    requires i < |fields|
    ensures QualifierPath(s, fields[..i + 1]) == QualifierPath(s, fields[..i]) + QualifierSegment(s, fields[i])
  {
    assert fields[..i + 1][..i] == fields[..i];
  }

  lemma AttributePairsStep(fields: seq<Field>, i: nat)
    requires i < |fields|
    ensures AttributePairs(fields[..i + 1]) ==
            AttributePairs(fields[..i]) + (if fields[i].value != "" then [(fields[i].code, fields[i].value)] else [])
  {
    assert fields[..i + 1][..i] == fields[..i];
  }

  lemma CustomPairsStep(custom: seq<CustomAttribute>, i: nat)
    requires i < |custom|
    ensures CustomPairs(custom[..i + 1]) ==
            CustomPairs(custom[..i]) +
            (if custom[i].key != "" && custom[i].value != "" then [(custom[i].key, custom[i].value)] else [])
  {
    assert custom[..i + 1][..i] == custom[..i];
  }

  lemma JoinStep(ps: seq<(string, string)>, n: nat)
    requires n < |ps|
    ensures Join(PairTexts(ps[..n + 1]), '&') ==
            Join(PairTexts(ps[..n]), '&') + (if n != 0 then "&" else "") + PairText(ps[n])
  {
    assert PairTexts(ps[..n + 1]) == PairTexts(ps[..n]) + [PairText(ps[n])];
    if n != 0 {
      JoinSnoc(PairTexts(ps[..n]), PairText(ps[n]), '&');
    }
  }
}
