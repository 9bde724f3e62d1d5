/**
 * The generator page's reference data: the read-only catalog tables
 * (identifiers, key qualifiers, GS1 data attributes and the alphanumeric
 * alias map), the three domain presets and the records the composer
 * reads. The tables' contents are not fixed here: every operation takes
 * them as parameters.
 */
module Catalog {

  /** `MAX_LENGTH`: longest label shown untruncated is one less than this. */
  const MAX_LENGTH: nat := 48
  /** `DEFAULT_GTIN_VALUE`: the identifier value the page starts with. */
  const DEFAULT_GTIN_VALUE: string := "9780345418913"

  /** An entry of `KEY_QUALIFIERS_LIST` or `AI_LIST`: its AI code and label text. */
  datatype CatalogEntry = CatalogEntry(code: string, labelText: string)

  /** An entry of `IDENTIFIER_LIST`, with the codes of the key qualifiers relevant to it. */
  datatype IdentifierDef = IdentifierDef(code: string, labelText: string, keyQualifiers: seq<string>)

  /** What the composer reads of a qualifier or attribute row: its code and the text typed into it. */
  datatype Field = Field(code: string, value: string)

  /** One row of the custom data attribute table: a free key and value. */
  datatype CustomAttribute = CustomAttribute(key: string, value: string)

  /** The keys of `DOMAINS`, one per option of the domain selector. */
  datatype DomainChoice = TnGg | IdGs1 | Custom

  const TN_GG_URL: string := "dlnkd.tn.gg"
  const ID_GS1_URL: string := "id.gs1.org"
  /** The initial `DOMAINS.CUSTOM.url`; the page lets the user replace it. */
  const CUSTOM_DEFAULT_URL: string := "gs1.example.org"

  /** `DOMAINS[domainKey].url`, where the custom preset's url is the mutable `customUrl`. */
  function DomainUrl(choice: DomainChoice, customUrl: string): string
  {
    match choice
    case TnGg => TN_GG_URL
    case IdGs1 => ID_GS1_URL
    case Custom => customUrl
  }

  /** `IDENTIFIER_LIST.find(item => item.code === code)`: an entry with that code, if there is one. */
  function FindIdentifier(list: seq<IdentifierDef>, code: string): (r: Option<IdentifierDef>)
    ensures r.Some? <==> exists i :: 0 <= i < |list| && list[i].code == code
    ensures r.Some? ==> r.value.code == code
  {
    if list == [] then None
    else if list[0].code == code then Some(list[0])
    else
      var r := FindIdentifier(list[1..], code);
      assert r.Some? ==> exists i :: 0 <= i < |list| && list[i].code == code by {
        if r.Some? {
          var i :| 0 <= i < |list[1..]| && list[1..][i].code == code;
          assert list[i + 1].code == code;
        }
      }
      r
  }

  /** The entry found is the first entry of the list with that code. */
  lemma {:induction false} FindIdentifierFirst(list: seq<IdentifierDef>, code: string)
    requires FindIdentifier(list, code).Some?
    ensures exists i :: 0 <= i < |list| && list[i] == FindIdentifier(list, code).value &&
                        forall j :: 0 <= j < i ==> list[j].code != code
    decreases |list|
  {
    if list[0].code != code {
      FindIdentifierFirst(list[1..], code);
      var i :| 0 <= i < |list[1..]| && list[1..][i] == FindIdentifier(list[1..], code).value &&
               forall j :: 0 <= j < i ==> list[1..][j].code != code;
      assert list[i + 1] == FindIdentifier(list, code).value;
      forall j | 0 <= j < i + 1 ensures list[j].code != code {
        if j > 0 {
          assert list[j] == list[1..][j - 1];
        }
      }
    }
  }

  datatype Option<+T> = None | Some(value: T)
}
