/** The settings-schema grammar as the finisher sees it: the closed set of
    element kinds, the filter attributes every node carries, the `<include>`
    node, the per-container content variant, the two exception kinds and the
    outside world the include resolver consults. */
module Schema {
  import opened Wrappers

  /** The alternatives of the variant a parsed document may hold, in the order
      of the loader's source variant. */
  datatype Kind = SettingsConfig | Category | Section | Group | Entry

  /** The filter attributes shared by every schema node: an optional
      `|`-separated `frontends` allow-list and an optional `selectors`
      expression (`a&b|c`). */
  datatype Info = Info(frontends: Option<string>, selectors: Option<string>)

  /** An `<include>` directive, which also carries filter attributes. */
  datatype Include = Include(includePath: string, optional: bool, info: Info)

  /** A schema element of one kind. Its own children are already finished and
      are not modelled. */
  datatype Element = Element(kind: Kind, info: Info)

  /** One entry of a container's content list, a variant of the include type
      and the container's permitted child types `alts`: `ElementItem(a, e)`
      holds `e` as alternative number `a` of `alts`. */
  datatype Content = IncludeItem(inc: Include) | ElementItem(alt: nat, element: Element)

  /** The index of the variant alternative an entry holds; the include type
      comes first. */
  function VariantIndex(c: Content): (r: nat)
    ensures r == 0 <==> c.IncludeItem?
  {
    match c
    case IncludeItem(_) => 0
    case ElementItem(a, _) => a + 1
  }

  /** The filter attributes of whichever alternative an entry holds. */
  function InfoOf(c: Content): Info
  {
    match c
    case IncludeItem(inc) => inc.info
    case ElementItem(_, e) => e.info
  }

  /** Every element entry holds the alternative of `alts` that its element's
      kind names, as the C++ type system guarantees. */
  predicate WellTyped(alts: seq<Kind>, items: seq<Content>)
  {
    forall i :: 0 <= i < |items| && items[i].ElementItem? ==>
      items[i].alt < |alts| && alts[items[i].alt] == items[i].element.kind
  }

  /** The structural errors an XmlException reports. */
  datatype XmlError = UnexpectedRootElement | MixedChildElements | Malformed(detail: string)

  /** The two exception types of the loader. */
  datatype LoadError = FileException(message: string) | XmlException(error: XmlError)

  /** What reading a whole document yields: its finished root element, or the
      exception the read raised. */
  datatype DocResult = Document(root: Element) | ReadFailure(error: LoadError)

  /** The surroundings of one finishing pass: the file name of the document
      being read when its reader is backed by a file, the directory-relative
      path resolution of QFileInfo/QDir, and the document reader. */
  datatype Context = Context(
    fileName: Option<string>,
    absoluteFilePath: (string, string) -> string,
    readDocument: string -> DocResult)

  /** The first alternative of `alts` that holds `kind`, if any: the position
      the included root element takes in the target variant. */
  function ConvertElement(alts: seq<Kind>, kind: Kind): (r: Option<nat>)
    ensures r.None? <==> kind !in alts
    ensures r.Some? ==> r.value < |alts| && alts[r.value] == kind && kind !in alts[..r.value]
  {
    if alts == [] then None
    else if alts[0] == kind then Some(0)
    else
      match ConvertElement(alts[1..], kind)
      case None => None
      case Some(k) =>
        assert alts[..k + 1] == [alts[0]] + alts[1..][..k];
        Some(k + 1)
  }

  /** With distinct alternatives, two well-typed element entries share a
      variant index exactly when their elements share a kind. */
  lemma SameIndexSameKind(alts: seq<Kind>, c: Content, d: Content)
    requires forall i, j :: 0 <= i < j < |alts| ==> alts[i] != alts[j]
    requires WellTyped(alts, [c, d]) && c.ElementItem? && d.ElementItem?
    ensures VariantIndex(c) == VariantIndex(d) <==> c.element.kind == d.element.kind
  {
    assert [c, d][0] == c && [c, d][1] == d;
  }
}
