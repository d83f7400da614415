/**
  The data model shared by the three programs: the bibliographic record
  (`Publication`) the organizer and the YAML generator produce, and the
  structured record (`Record`) the metadata updater reads back from each
  YAML file.
 */
module Publications {
  import opened Base

  /** The placeholder used for an unknown year or title. */
  const Unknown: string := "Unknown"

  datatype Publication = Publication(
    title: string,
    authors: seq<string>,
    year: string,
    doi: Option<string>,
    isbn: Option<string>,
    publisher: Option<string>,
    abstractText: Option<string>,
    contentHash: Option<string>)

  /** `Publication(title=..., authors=..., year=...)`: every optional field left at `None`. */
  function Basic(title: string, authors: seq<string>, year: string): (p: Publication)
    ensures p.title == title && p.authors == authors && p.year == year
    ensures p.doi.None? && p.isbn.None? && p.publisher.None? && p.abstractText.None? && p.contentHash.None?
  {
    Publication(title, authors, year, None, None, None, None, None)
  }

  /**
    One entry of a loaded YAML mapping: the key may be absent, present with
    a null value, or present with a value. `dict.get(key, default)` tells
    the first two apart (absent gives the default, null gives `None`).
   */
  datatype Field<+T> = Missing | Null | Present(value: T)

  /**
    A loaded YAML mapping as the updater reads it: one field per key the
    YAML generator writes, and whether the mapping holds any other key.
   */
  datatype Record = Record(
    title: Field<string>,
    authors: Field<seq<string>>,
    year: Field<string>,
    doi: Field<string>,
    isbn: Field<string>,
    publisher: Field<string>,
    abstractText: Field<string>,
    hasOtherKeys: bool)

  /**
    A mapping with no keys at all, which Python treats as false: none of
    the seven record keys and no other key either.
   */
  predicate IsEmptyMapping(r: Record) {
    r.title.Missing? && r.authors.Missing? && r.year.Missing? && r.doi.Missing?
    && r.isbn.Missing? && r.publisher.Missing? && r.abstractText.Missing? && !r.hasOtherKeys
  }

  /** A YAML value as the generator writes it: a string, a list of strings, or null. */
  datatype YamlValue = Str(text: string) | StrList(items: seq<string>) | Nothing

  /** The keys `generate_yaml` writes, in the order it writes them. */
  const RecordKeys: seq<string> := ["title", "authors", "year", "doi", "isbn", "publisher", "abstract"]

  /** The written keys are pairwise distinct. */
  lemma RecordKeysDistinct()
    ensures forall i, j :: 0 <= i < j < |RecordKeys| ==> RecordKeys[i] != RecordKeys[j]
  {
    assert forall i, j :: 0 <= i < j < |RecordKeys| && |RecordKeys[i]| == |RecordKeys[j]| ==> RecordKeys[i][0] != RecordKeys[j][0];
  }
}
