/**
 * The helpers that add one value to a document under construction. A
 * document is an append-only list of (field, value) entries; each helper
 * takes it and returns it with at most one entry added at the end.
 */
module IndexValue {
  import opened Wrappers

  /** A schema field handle. */
  type Field = nat

  /** Rust's `i64`. */
  newtype I64 = x: int | -0x8000_0000_0000_0000 <= x < 0x8000_0000_0000_0000

  /** The three kinds of value these helpers add; a facet is kept as its path text. */
  datatype Value = FacetValue(path: string) | TextValue(text: string) | I64Value(n: I64)

  datatype FieldValue = FieldValue(field: Field, value: Value)

  type Document = seq<FieldValue>

  predicate StartsWithSlash(s: string)
  {
    |s| > 0 && s[0] == '/'
  }

  /**
   * The facet path `index_facet` builds: the value itself when it already
   * starts with "/", otherwise "/" followed by the value.
   */
  function FacetPath(value: string): (path: string)
    ensures StartsWithSlash(path)
    ensures |path| == |value| + (if StartsWithSlash(value) then 0 else 1)
    ensures path[|path| - |value|..] == value
  {
    if StartsWithSlash(value) then value else "/" + value
  }

  /** `index_facet`: appends one facet entry for `field`, rooted at "/". */
  function IndexFacet(doc: Document, field: Field, value: string): (r: Document)
    ensures |r| == |doc| + 1 && r[..|doc|] == doc
    ensures r[|doc|].field == field && r[|doc|].value.FacetValue?
    ensures r[|doc|].value.path == FacetPath(value)
  {
    doc + [FieldValue(field, FacetValue(FacetPath(value)))]
  }

  /** `index_optional_facet`: `index_facet` for a present value, the document untouched otherwise. */
  function IndexOptionalFacet(doc: Document, field: Field, value: Option<string>): (r: Document)
    ensures value.None? ==> r == doc
    ensures value.Some? ==> r == IndexFacet(doc, field, value.value)
    ensures |r| == |doc| + (if value.Some? then 1 else 0) && r[..|doc|] == doc
  {
    match value
    case Some(v) => IndexFacet(doc, field, v)
    case None => doc
  }

  /** `index_optional_text`: one text entry for a present value, the document untouched otherwise. */
  function IndexOptionalText(doc: Document, field: Field, value: Option<string>): (r: Document)
    ensures value.None? ==> r == doc
    ensures value.Some? ==> |r| == |doc| + 1 && r[..|doc|] == doc && r[|doc|] == FieldValue(field, TextValue(value.value))
  {
    match value
    case Some(v) => doc + [FieldValue(field, TextValue(v))]
    case None => doc
  }

  /** `index_optional_i64`: one integer entry for a present value, the document untouched otherwise. */
  function IndexOptionalI64(doc: Document, field: Field, value: Option<I64>): (r: Document)
    ensures value.None? ==> r == doc
    ensures value.Some? ==> |r| == |doc| + 1 && r[..|doc|] == doc && r[|doc|] == FieldValue(field, I64Value(value.value))
  {
    match value
    case Some(v) => doc + [FieldValue(field, I64Value(v))]
    case None => doc
  }

  // ---------------------------------------------------------------------------
  // Properties
  // ---------------------------------------------------------------------------

  /** Normalising a path that is already rooted changes nothing, so normalising twice is normalising once. */
  lemma FacetPathIdempotent(value: string)
    ensures FacetPath(FacetPath(value)) == FacetPath(value)
    ensures StartsWithSlash(value) <==> FacetPath(value) == value
  {
  }

  /** The empty value becomes the root facet. */
  lemma EmptyFacetIsRoot()
    ensures FacetPath("") == "/"
  {
  }

  /** Writing the leading "/" yourself gives the same facet exactly when the value did not have one already. */
  lemma {:induction false} ExplicitRootSameFacet(value: string)
    ensures FacetPath("/" + value) == FacetPath(value) <==> !StartsWithSlash(value)
  {
    if StartsWithSlash(value) {
      assert |FacetPath("/" + value)| == |value| + 1;
    }
  }

  /** How many entries of `doc` belong to `field`. */
  function Count(doc: Document, field: Field): nat
  {
    if doc == [] then 0
    else Count(doc[..|doc| - 1], field) + (if doc[|doc| - 1].field == field then 1 else 0)
  }

  /** Every facet entry of the document is rooted at "/", as facet parsing demands. */
  ghost predicate FacetsRooted(doc: Document)
  {
    forall i :: 0 <= i < |doc| && doc[i].value.FacetValue? ==> StartsWithSlash(doc[i].value.path)
  }

  lemma {:induction false} CountAppend(doc: Document, e: FieldValue, field: Field)
    ensures Count(doc + [e], field) == Count(doc, field) + (if e.field == field then 1 else 0)
  {
    assert (doc + [e])[..|doc|] == doc;
  }

  /** `index_facet` adds one entry to its own field and none to any other. */
  lemma {:induction false} IndexFacetCounts(doc: Document, field: Field, value: string, other: Field)
    ensures Count(IndexFacet(doc, field, value), other) == Count(doc, other) + (if other == field then 1 else 0)
  {
    CountAppend(doc, FieldValue(field, FacetValue(FacetPath(value))), other);
  }

  /** Each optional helper adds one entry to its field for a present value and nothing otherwise. */
  lemma {:induction false} OptionalHelpersCount(doc: Document, field: Field, other: Field, s: Option<string>, n: Option<I64>)
    ensures Count(IndexOptionalFacet(doc, field, s), other) == Count(doc, other) + (if s.Some? && other == field then 1 else 0)
    ensures Count(IndexOptionalText(doc, field, s), other) == Count(doc, other) + (if s.Some? && other == field then 1 else 0)
    ensures Count(IndexOptionalI64(doc, field, n), other) == Count(doc, other) + (if n.Some? && other == field then 1 else 0)
  {
    if s.Some? {
      IndexFacetCounts(doc, field, s.value, other);
      CountAppend(doc, FieldValue(field, TextValue(s.value)), other);
    }
    if n.Some? {
      CountAppend(doc, FieldValue(field, I64Value(n.value)), other);
    }
  }

  /** Every helper keeps all of the document's facets rooted. */
  lemma RootedPreserved(doc: Document, field: Field, v: string, s: Option<string>, n: Option<I64>)
    requires FacetsRooted(doc)
    ensures FacetsRooted(IndexFacet(doc, field, v))
    ensures FacetsRooted(IndexOptionalFacet(doc, field, s))
    ensures FacetsRooted(IndexOptionalText(doc, field, s))
    ensures FacetsRooted(IndexOptionalI64(doc, field, n))
  {
  }
}
