# QtMvvm settings-schema content finisher, in Dafny

QtMvvm builds settings UIs from XML schema files: a `<settingsConfig>` holds
categories, sections, groups and entries, any of which may be replaced by an
`<include path="..." optional="...">` of another file, and every node may carry
a `frontends="a|b"` allow-list and a `selectors="x&y|z"` expression. After the
parser has read one container's children into an ordered list of
`variant<IncludeType, T...>`, `SettingsConfigImpl::finishContents` walks that
list in place:

- an include that fails the filter is erased;
- a usable include is read and its root element overwrites the include in
  the same slot, provided the root's type is one of the list's alternatives
  ("Unexpected root element in included file" otherwise). Before the read, the
  path is rewritten by the QFileSelector when a selector is configured, and
  then made absolute against the current document's directory when that
  document was read from a file. A FileException from the read erases an
  optional include, or any include when `setIncludesOptional(true)` was
  called, and is rethrown otherwise;
- the first entry that survives the include step fixes the variant index, and a
  later entry with another index throws "Detected mixture of different child
  elements";
- an entry that fails the filter is erased.

The filter (`isUsable`) rejects a node whose `frontends` does not list the
configured frontend, and, with a selector configured, a node whose
`selectors` has no `|`-term whose `&`-parts are all active selectors.

The project has six modules:

- `Wrappers` (wrappers.dfy): the option type.
- `QtStrings` (qtstrings.dfy): `QString::split` with kept and with skipped
  empty parts, and the join/split round trip.
- `Schema` (schema.dfy): the element kinds, filter attributes, the include
  node, the content variant and its index, the two exception types, the
  document reader context and the variant conversion of an included root.
- `Filters` (filters.dfy): the loader's filter state, the QFileSelector
  object and the filter as a specification.
- `Finish` (finish.dfy): `readGeneralInclude` and `finishContents` as
  specification functions. It gives a second, one-concern-at-a-time
  description of the pass (which entries the include step keeps, whether they
  are homogeneous, the filter) and theorems connecting the two.
- `SettingsConfig` (settingsconfig.dfy): the loader class `SettingsConfigImpl`
  with its three fields and its methods. `FinishContents` edits a
  `ContentList` object in place, one entry at a time, and is proved to leave
  exactly the list and exception of the specification.

The loader's collaborators are parameters. `Context.readDocument` is the
document reader: it returns the finished root element of a document, or the
exception reading it raised. A FileException raised by a nested mandatory
include inside the included document is such an exception, and the
surrounding include's `catch` sees it. `Context.absoluteFilePath` is
`QFileInfo(fileName).dir().absoluteFilePath(path)`. `Context.fileName` is
present exactly when the reader's device is a `QFileDevice`.
`FileSelector.select` is the platform path lookup and
`FileSelector.allSelectors` the active selector names.

Details of the code the model follows:

- The include itself is filtered before it is read.
- The resolved root element is then filtered by its own attributes.
- An included root may be of any of the list's alternative types, not only
  the type of its siblings; a mixture is detected afterwards.
- The variant index is fixed by the first entry that survives the include
  step, whether it came from an include or not, and even if the filter then
  erases it.
- Resolution and filtering happen in one pass. An exception leaves the list
  with its earlier entries already finished.
- A non-null but empty frontend rejects every node that declares
  `frontends`.
- A `|`-term consisting only of `&` characters is satisfied by any selector
  set.

## Model

| member | source | states |
|---|---|---|
| `QtStrings.SplitAll` | src/settingsconfig/settingsconfigimpl.cpp:149 | splitting yields at least one part and no part contains the separator |
| `QtStrings.SplitSkipEmpty` | src/settingsconfig/settingsconfigimpl.cpp:156-158 | a string is a part with empty parts skipped exactly when it is a non-empty part of the full split |
| `QtStrings.JoinSplitAll` | src/settingsconfig/settingsconfigimpl.cpp:149 | joining the parts of a split with the separator gives the original string back |
| `QtStrings.SplitAllJoin` | src/settingsconfig/settingsconfigimpl.cpp:156-158 | splitting the join of separator-free parts gives those parts back |
| `QtStrings.SplitSkipEmptyJoin` | src/settingsconfig/settingsconfigimpl.cpp:149 | with empty parts skipped, the join of non-empty separator-free parts splits back into them |
| `QtStrings.SplitAllOnlySeparators` | src/settingsconfig/settingsconfigimpl.cpp:158 | a string of separators only splits into empty parts only |
| `Schema.ConvertElement` | src/settingsconfig/settingsconfigimpl.cpp:12-37 | an included root converts exactly when its kind is one of the list's alternatives, and then into the first alternative holding that kind |
| `Schema.VariantIndex` | src/settingsconfig/settingsconfigimpl.cpp:101-106 | the variant index compared between siblings is 0 exactly for an include entry |
| `Schema.SameIndexSameKind` | src/settingsconfig/settingsconfigimpl.cpp:101-106 | with distinct alternatives, two well-typed elements share a variant index exactly when they share a kind |
| `Filters.UnfilteredAllUsable` | src/settingsconfig/settingsconfigimpl.cpp:146-173 | with no frontend and no selector every node is usable |
| `Filters.FrontendVeto` | src/settingsconfig/settingsconfigimpl.cpp:148-152 | with a configured frontend and a declared list, the node passes the frontend check exactly when the list contains the frontend, so a missing frontend rejects the node whatever its selectors say |
| `Filters.EmptyFrontendRejected` | src/settingsconfig/settingsconfigimpl.cpp:148-150 | a non-null empty frontend rejects every node that declares `frontends` |
| `Filters.NoTermsRejected` | src/settingsconfig/settingsconfigimpl.cpp:154-170 | with a selector configured, a `selectors` value without non-empty terms rejects the node |
| `Filters.AmpersandTermSatisfied` | src/settingsconfig/settingsconfigimpl.cpp:158-167 | a term of `&` characters only names no selector and is satisfied by any active set |
| `Filters.FrontendInJoinedList` | src/settingsconfig/settingsconfigimpl.cpp:148-152 | for a `|`-joined list of names the frontend passes exactly when it is a non-empty one of the names |
| `Filters.SelectorsOfTwoTerms` | src/settingsconfig/settingsconfigimpl.cpp:154-170 | the two-term expression of `a1&a2` and `b` is satisfied exactly when both `a1` and `a2` are active or `b` is |
| `Filters.DesktopMobileExample` | src/settingsconfig/settingsconfigimpl.cpp:148-152 | the list "desktop" and "mobile" admits "desktop", rejects "web" and admits anything without a frontend |
| `Filters.IosPhoneAndroidExample` | src/settingsconfig/settingsconfigimpl.cpp:154-170 | the terms `ios&phone` and `android` reject {ios, tablet} and admit {ios, phone} |
| `Filters.Usable` | src/settingsconfig/settingsconfigimpl.cpp:146-173 | the filter: the frontend check and the selector check both pass; with no filters every node passes, and a passing node never matched an empty frontend or an expression without terms |
| `Finish.ReadInclude` | src/settingsconfig/settingsconfigimpl.cpp:122-144 | reading a usable include: a kept result is an element entry of the alternative its kind names, and an erased include was optional or under the override; the path read is `IncludePath`: the selector lookup when a selector is configured, then `absoluteFilePath` when the document is a file |
| `Finish.Slot` | src/settingsconfig/settingsconfigimpl.cpp:92-99 | the include step leaves an element entry where it is, erases only includes, and what it puts in an include's place is an element entry of the alternative its kind names |
| `Finish.UnusableIncludeNotRead` | src/settingsconfig/settingsconfigimpl.cpp:93-95 | an include that fails the filter is erased without being read: finishing it and the rest gives what the rest alone gives, and a lone such include finishes to an empty list with no exception |
| `Finish.Walk` | src/settingsconfig/settingsconfigimpl.cpp:86-119 | the walk keeps the finished prefix as it is and never lengthens the list; `FinishContents` starts the walk with an empty prefix and no fixed index (:89) |
| `Finish.WalkReference` | src/settingsconfig/settingsconfigimpl.cpp:86-119 | from any point of the walk: it returns normally exactly when no later include step raises and the kept entries agree with the fixed index, leaving the prefix followed by the usable kept entries |
| `Finish.WalkThrownCause` | src/settingsconfig/settingsconfigimpl.cpp:101-106 | an exception of the walk is the mixture error or the exception of one of its include steps |
| `Finish.FinishReference` | src/settingsconfig/settingsconfigimpl.cpp:86-119 | the pass returns normally exactly when no include step raises and all kept entries hold one alternative; the list is then the kept entries that pass the filter |
| `Finish.NoIncludesRemain` | src/settingsconfig/settingsconfigimpl.cpp:92-99 | after a normal return no include is left in the list |
| `Finish.FinishedAreUsable` | src/settingsconfig/settingsconfigimpl.cpp:108-116 | after a normal return every entry passes the filter |
| `Finish.FinishedHomogeneous` | src/settingsconfig/settingsconfigimpl.cpp:101-106 | after a normal return all entries share one variant index |
| `Finish.MixedSiblingsThrow` | src/settingsconfig/settingsconfigimpl.cpp:101-106 | two entries surviving the include step with different indices make the pass throw, even if the filter would drop them; without failing includes it throws the mixture error |
| `Finish.FinishPreservesOrder` | src/settingsconfig/settingsconfigimpl.cpp:90-117 | after a normal return the list arises from the original by erasing entries and replacing each kept one in its own slot, in order, and is no longer |
| `Finish.UnfilteredFinish` | src/settingsconfig/settingsconfigimpl.cpp:108-116 | without filters, a normally finished list is exactly what the include step keeps |
| `Finish.FinishWellTyped` | src/settingsconfig/settingsconfigimpl.cpp:18-25 | resolved includes take their root kind's alternative, so a well-typed list stays well-typed and ends with elements of one kind |
| `Finish.ReadIncludeOutcomes` | src/settingsconfig/settingsconfigimpl.cpp:122-144 | the include step replaces with a permitted root, raises for a foreign root, erases on a FileException for an optional include or under the override, and rethrows every other exception |
| `Finish.AlwaysOptionalActsAsOptional` | src/settingsconfig/settingsconfigimpl.cpp:137 | for one and the same read outcome, the override acts exactly like the include's own optional flag |
| `Finish.MissingFileErasedWhenOptional` | src/settingsconfig/settingsconfigimpl.cpp:134-140 | an include whose file cannot be opened is erased under the override and when marked optional, and its FileException is rethrown when it is mandatory and the override is off |
| `Finish.IncludedCategoryFollowsExample` | src/settingsconfig/settingsconfigimpl.cpp:86-144 | a category followed by a mandatory include of a category file finishes as both categories in document order, and throws the FileException when the file is missing |
| `SettingsConfig.SettingsConfigImpl.SetFilters` | src/settingsconfig/settingsconfigimpl.cpp:41-45 | sets frontend and selector, keeps the override |
| `SettingsConfig.SettingsConfigImpl.ResetFilters` | src/settingsconfig/settingsconfigimpl.cpp:47-51 | nulls the frontend and the selector, keeps the override, and makes every node usable |
| `SettingsConfig.SettingsConfigImpl.SetIncludesOptional` | src/settingsconfig/settingsconfigimpl.cpp:53-56 | sets the override, keeps the filters |
| `SettingsConfig.SettingsConfigImpl.IsUsable` | src/settingsconfig/settingsconfigimpl.cpp:146-173 | the nested loops return exactly the filter specification `Filters.Usable` |
| `SettingsConfig.SettingsConfigImpl.ReadGeneralInclude` | src/settingsconfig/settingsconfigimpl.cpp:121-144 | the list is overwritten at the slot, erased at the slot or untouched, and the result and exception are those of the include step |
| `SettingsConfig.SettingsConfigImpl.FinishContents` | src/settingsconfig/settingsconfigimpl.cpp:86-119 | the in-place walk leaves exactly the list and exception of `Finish.FinishContents` on the original list |

## Left out

- XML streaming (`QXmlStreamReader`), the generated `read_*` parsers and
  `readDocument` are not part of this model. A document read is the
  `Context.readDocument` function, whose result is already finished, so
  include cycles are not modelled.
- The `finish_group_content`, `finish_section_content`,
  `finish_category_content` and `finish_settings_config_content` wrappers
  (src/settingsconfig/settingsconfigimpl.cpp:58-84) only run a generated
  parser and then `finishContents`. Their lists' alternative types are
  declared in a header that is not part of this model, so
  `FinishContents` takes the alternatives as a parameter.
- `QFileSelector::select`, `QFileInfo`/`QDir::absoluteFilePath` and the
  `dynamic_cast` to `QFileDevice` are uninterpreted functions and an optional
  file name.
- Finish.AlwaysOptionalActsAsOptional: `Context.readDocument` is fixed for one loader state, so the override's effect on the includes inside an included document is not modelled. In the program the included document is finished by the same loader (src/settingsconfig/settingsconfigimpl.cpp:58-84), so under the override a missing nested include is erased and the outer include resolves, while marking only the outer include optional erases it.
- The `qWarning` on a dropped optional include has no modelled effect.
- An XmlException's reader position is not modelled.
- XmlException is taken not to be a subclass of FileException. The exception
  classes are declared in a header that is not part of this model.
- Each element's own children and other attributes are not modelled; an
  element is its kind and its filter attributes.
- The constructor's initial state (null frontend, no selector, override off)
  is the evident default; the class declaration is in a header that is not
  part of this model.
- `Q_ASSERT(visited)` always holds and has no model.
- The view-model, QML plugin, UI builder, widgets presenter and test backend
  files are Qt glue without a part in the finisher.
