/** The content finisher as a specification: what `finishContents` makes of
    one container's content list, with `readGeneralInclude` and the variant
    conversion as its include step, and the theorems that say what a
    finished list looks like. */
module Finish {
  import opened Wrappers
  import opened Schema
  import opened Filters

  /** The path an include is read from: first rewritten by the selector's
      platform lookup when a selector is configured, then resolved against the
      directory of the document being read when that document is a file. */
  function IncludePath(s: LoaderState, ctx: Context, inc: Include): string
  {
    var selected := if s.selector.Some? then s.selector.value.select(inc.includePath) else inc.includePath;
    if ctx.fileName.Some? then ctx.absoluteFilePath(ctx.fileName.value, selected) else selected
  }

  /** What the include step leaves in an entry's slot: nothing, an exception,
      or an element entry. */
  datatype SlotOutcome = Erased | Failed(error: LoadError) | Holds(entry: Content)

  /** Reading a usable include: the included root element becomes the first
      alternative of `alts` of its kind, a root of another kind is an
      XmlException, a FileException drops an optional include and every other
      exception passes through. */
  function ReadInclude(s: LoaderState, ctx: Context, alts: seq<Kind>, inc: Include): (r: SlotOutcome)
    ensures r.Holds? ==> r.entry.ElementItem? && r.entry.alt < |alts| && alts[r.entry.alt] == r.entry.element.kind
    ensures r.Erased? ==> inc.optional || s.alwaysOptional
  {
    match ctx.readDocument(IncludePath(s, ctx, inc))
    case Document(root) =>
      (match ConvertElement(alts, root.kind)
       case Some(a) => Holds(ElementItem(a, root))
       case None => Failed(XmlException(UnexpectedRootElement)))
    case ReadFailure(e) =>
      if e.FileException? && (inc.optional || s.alwaysOptional) then Erased else Failed(e)
  }

  /** The include step for one entry: an unusable include is dropped, a usable
      one is read, an element stays. */
  function Slot(s: LoaderState, ctx: Context, alts: seq<Kind>, c: Content): (r: SlotOutcome)
    ensures c.ElementItem? ==> r == Holds(c)
    ensures c.IncludeItem? && r.Holds? ==>
      r.entry.ElementItem? && r.entry.alt < |alts| && alts[r.entry.alt] == r.entry.element.kind
    ensures r.Erased? ==> c.IncludeItem?
  {
    match c
    case IncludeItem(inc) => if Usable(s, inc.info) then ReadInclude(s, ctx, alts, inc) else Erased
    case ElementItem(_, _) => Holds(c)
  }

  /** The list a finishing pass leaves behind and the exception it ended with,
      if any. */
  datatype Finished = Finished(items: seq<Content>, thrown: Option<LoadError>)

  /** The walk over the list: `done` is the finished prefix, `rest` the entries
      still to visit and `index` the variant index fixed by the first entry
      that survived the include step. An exception leaves the list as it is at
      that moment. */
  function Walk(s: LoaderState, ctx: Context, alts: seq<Kind>, done: seq<Content>, rest: seq<Content>, index: Option<nat>): (r: Finished)
    ensures |done| <= |r.items| <= |done| + |rest|
    ensures r.items[..|done|] == done
    decreases |rest|
  {
    if rest == [] then Finished(done, None)
    else
      match Slot(s, ctx, alts, rest[0])
      case Erased => Walk(s, ctx, alts, done, rest[1..], index)
      case Failed(e) => Finished(done + rest, Some(e))
      case Holds(c) =>
        if index.Some? && index.value != VariantIndex(c) then
          Finished(done + [c] + rest[1..], Some(XmlException(MixedChildElements)))
        else
          var fixed := if index.Some? then index else Some(VariantIndex(c));
          if Usable(s, InfoOf(c)) then Walk(s, ctx, alts, done + [c], rest[1..], fixed)
          else Walk(s, ctx, alts, done, rest[1..], fixed)
  }

  // One step of the walk, as the in-place loop takes it.

  lemma WalkErased(s: LoaderState, ctx: Context, alts: seq<Kind>, done: seq<Content>, rest: seq<Content>, index: Option<nat>)
    requires rest != [] && Slot(s, ctx, alts, rest[0]) == Erased
    ensures Walk(s, ctx, alts, done, rest, index) == Walk(s, ctx, alts, done, rest[1..], index)
  {
  }

  lemma WalkFailed(s: LoaderState, ctx: Context, alts: seq<Kind>, done: seq<Content>, rest: seq<Content>, index: Option<nat>)
    requires rest != [] && Slot(s, ctx, alts, rest[0]).Failed?
    ensures Walk(s, ctx, alts, done, rest, index) == Finished(done + rest, Some(Slot(s, ctx, alts, rest[0]).error))
  {
  }

  /** Overwriting a slot with what the include step leaves there changes
      nothing about the walk. */
  lemma WalkResolved(s: LoaderState, ctx: Context, alts: seq<Kind>, done: seq<Content>, rest: seq<Content>, index: Option<nat>)
    requires rest != [] && Slot(s, ctx, alts, rest[0]).Holds?
    requires Slot(s, ctx, alts, rest[0]).entry.ElementItem?
    ensures Walk(s, ctx, alts, done, rest, index) == Walk(s, ctx, alts, done, [Slot(s, ctx, alts, rest[0]).entry] + rest[1..], index)
  {
    var c := Slot(s, ctx, alts, rest[0]).entry;
    assert ([c] + rest[1..])[0] == c && ([c] + rest[1..])[1..] == rest[1..];
  }

  lemma WalkMixed(s: LoaderState, ctx: Context, alts: seq<Kind>, done: seq<Content>, rest: seq<Content>, index: Option<nat>)
    requires rest != [] && rest[0].ElementItem?
    requires index.Some? && index.value != VariantIndex(rest[0])
    ensures Walk(s, ctx, alts, done, rest, index) == Finished(done + rest, Some(XmlException(MixedChildElements)))
  {
    assert done + [rest[0]] + rest[1..] == done + rest;
  }

  lemma WalkElement(s: LoaderState, ctx: Context, alts: seq<Kind>, done: seq<Content>, rest: seq<Content>, index: Option<nat>)
    requires rest != [] && rest[0].ElementItem?
    requires index.None? || index.value == VariantIndex(rest[0])
    ensures var fixed := Some(VariantIndex(rest[0]));
      Walk(s, ctx, alts, done, rest, index) ==
        if Usable(s, InfoOf(rest[0])) then Walk(s, ctx, alts, done + [rest[0]], rest[1..], fixed)
        else Walk(s, ctx, alts, done, rest[1..], fixed)
  {
  }

  /** An include that fails the filter is dropped without being read: the
      finished list and its exception are those of the remaining entries,
      whatever the document reader would have returned. */
  lemma UnusableIncludeNotRead(s: LoaderState, ctx: Context, alts: seq<Kind>, inc: Include, rest: seq<Content>)
    requires !Usable(s, inc.info)
    ensures FinishContents(s, ctx, alts, [IncludeItem(inc)] + rest) == FinishContents(s, ctx, alts, rest)
    ensures FinishContents(s, ctx, alts, [IncludeItem(inc)]) == Finished([], None)
  {
    assert ([IncludeItem(inc)] + rest)[1..] == rest;
    WalkErased(s, ctx, alts, [], [IncludeItem(inc)] + rest, None);
    WalkErased(s, ctx, alts, [], [IncludeItem(inc)], None);
  }

  /** Finishing a whole content list. */
  function FinishContents(s: LoaderState, ctx: Context, alts: seq<Kind>, items: seq<Content>): Finished
  {
    Walk(s, ctx, alts, [], items, None)
  }

  // ---------------------------------------------------------------------
  // A reference description of the same pass, one concern at a time
  // ---------------------------------------------------------------------

  /** The entries the include step keeps, in order. */
  function Kept(s: LoaderState, ctx: Context, alts: seq<Kind>, items: seq<Content>): seq<Content>
    decreases |items|
  {
    if items == [] then []
    else
      match Slot(s, ctx, alts, items[0])
      case Holds(c) => [c] + Kept(s, ctx, alts, items[1..])
      case _ => Kept(s, ctx, alts, items[1..])
  }

  /** No entry's include step raises an exception. */
  predicate IncludesResolve(s: LoaderState, ctx: Context, alts: seq<Kind>, items: seq<Content>)
  {
    forall i :: 0 <= i < |items| ==> !Slot(s, ctx, alts, items[i]).Failed?
  }

  /** All entries hold the same variant alternative. */
  predicate Homogeneous(cs: seq<Content>)
  {
    forall i :: 0 <= i < |cs| ==> VariantIndex(cs[i]) == VariantIndex(cs[0])
  }

  /** All entries hold the alternative `index` fixes, or, with none fixed yet,
      one and the same alternative. */
  predicate Agrees(index: Option<nat>, cs: seq<Content>)
  {
    if index.None? then Homogeneous(cs)
    else forall i :: 0 <= i < |cs| ==> VariantIndex(cs[i]) == index.value
  }

  /** The entries that pass the filter, in order. */
  function UsableOnly(s: LoaderState, cs: seq<Content>): seq<Content>
  {
    if cs == [] then []
    else if Usable(s, InfoOf(cs[0])) then [cs[0]] + UsableOnly(s, cs[1..])
    else UsableOnly(s, cs[1..])
  }

  /** `out` arises from `items` by dropping entries and by putting in each
      remaining slot what the include step leaves there, in the same order. */
  predicate Embeds(s: LoaderState, ctx: Context, alts: seq<Kind>, out: seq<Content>, items: seq<Content>)
    decreases |items|
  {
    if items == [] then out == []
    else
      (out != [] && Slot(s, ctx, alts, items[0]) == Holds(out[0]) && Embeds(s, ctx, alts, out[1..], items[1..]))
      || Embeds(s, ctx, alts, out, items[1..])
  }

  lemma AgreesCons(index: Option<nat>, c: Content, cs: seq<Content>)
    ensures Agrees(index, [c] + cs) <==>
      (index.None? || index.value == VariantIndex(c)) && Agrees(Some(VariantIndex(c)), cs)
  {
    var l := [c] + cs;
    assert l[0] == c;
    assert forall i :: 0 < i < |l| ==> l[i] == cs[i - 1];
    assert forall i :: 0 <= i < |cs| ==> cs[i] == l[i + 1];
  }

  lemma IncludesResolveCons(s: LoaderState, ctx: Context, alts: seq<Kind>, items: seq<Content>)
    requires items != []
    ensures IncludesResolve(s, ctx, alts, items) <==>
      !Slot(s, ctx, alts, items[0]).Failed? && IncludesResolve(s, ctx, alts, items[1..])
  {
    assert forall i :: 0 < i < |items| ==> items[i] == items[1..][i - 1];
  }

  /** The walk succeeds exactly when no include step fails and the kept
      entries agree with the fixed index, and then the finished list is the
      prefix followed by the usable kept entries. */
  lemma {:induction false} WalkReference(s: LoaderState, ctx: Context, alts: seq<Kind>, done: seq<Content>, rest: seq<Content>, index: Option<nat>)
    ensures var r := Walk(s, ctx, alts, done, rest, index);
      r.thrown.None? <==> IncludesResolve(s, ctx, alts, rest) && Agrees(index, Kept(s, ctx, alts, rest))
    ensures var r := Walk(s, ctx, alts, done, rest, index);
      r.thrown.None? ==> r.items == done + UsableOnly(s, Kept(s, ctx, alts, rest))
    decreases |rest|
  {
    if rest != [] {
      IncludesResolveCons(s, ctx, alts, rest);
      var tail := rest[1..];
      match Slot(s, ctx, alts, rest[0])
      case Erased =>
        WalkReference(s, ctx, alts, done, tail, index);
      case Failed(e) =>
      case Holds(c) =>
        AgreesCons(index, c, Kept(s, ctx, alts, tail));
        var fixed := if index.Some? then index else Some(VariantIndex(c));
        var kept := [c] + Kept(s, ctx, alts, tail);
        assert kept[0] == c && kept[1..] == Kept(s, ctx, alts, tail);
        if !(index.Some? && index.value != VariantIndex(c)) {
          assert fixed == Some(VariantIndex(c));
          if Usable(s, InfoOf(c)) {
            WalkReference(s, ctx, alts, done + [c], tail, fixed);
          } else {
            WalkReference(s, ctx, alts, done, tail, fixed);
          }
        }
    }
  }

  /** A failed walk throws either the mixture error or the exception of one
      of the include steps it visited. */
  lemma {:induction false} WalkThrownCause(s: LoaderState, ctx: Context, alts: seq<Kind>, done: seq<Content>, rest: seq<Content>, index: Option<nat>)
    ensures var r := Walk(s, ctx, alts, done, rest, index);
      r.thrown.Some? ==>
        r.thrown.value == XmlException(MixedChildElements) ||
        exists i :: 0 <= i < |rest| && Slot(s, ctx, alts, rest[i]) == Failed(r.thrown.value)
    decreases |rest|
  {
    if rest != [] {
      var tail := rest[1..];
      var r := Walk(s, ctx, alts, done, rest, index);
      assert forall i :: 0 <= i < |tail| ==> tail[i] == rest[i + 1];
      match Slot(s, ctx, alts, rest[0])
      case Erased =>
        WalkThrownCause(s, ctx, alts, done, tail, index);
      case Failed(e) =>
        assert Slot(s, ctx, alts, rest[0]) == Failed(r.thrown.value);
      case Holds(c) =>
        var fixed := if index.Some? then index else Some(VariantIndex(c));
        if !(index.Some? && index.value != VariantIndex(c)) {
          if Usable(s, InfoOf(c)) {
            WalkThrownCause(s, ctx, alts, done + [c], tail, fixed);
          } else {
            WalkThrownCause(s, ctx, alts, done, tail, fixed);
          }
        }
    }
  }

  /** The finisher, one concern at a time: it returns normally exactly when no
      include step raises and every entry kept by the include step holds the
      same alternative; the finished list is then the kept entries that pass
      the filter. */
  lemma FinishReference(s: LoaderState, ctx: Context, alts: seq<Kind>, items: seq<Content>)
    ensures var r := FinishContents(s, ctx, alts, items);
      r.thrown.None? <==> IncludesResolve(s, ctx, alts, items) && Homogeneous(Kept(s, ctx, alts, items))
    ensures var r := FinishContents(s, ctx, alts, items);
      r.thrown.None? ==> r.items == UsableOnly(s, Kept(s, ctx, alts, items))
  {
    WalkReference(s, ctx, alts, [], items, None);
    assert [] + UsableOnly(s, Kept(s, ctx, alts, items)) == UsableOnly(s, Kept(s, ctx, alts, items));
  }

  lemma {:induction false} KeptAreElements(s: LoaderState, ctx: Context, alts: seq<Kind>, items: seq<Content>)
    ensures forall c :: c in Kept(s, ctx, alts, items) ==> c.ElementItem?
    decreases |items|
  {
    if items != [] {
      KeptAreElements(s, ctx, alts, items[1..]);
    }
  }

  lemma {:induction false} UsableOnlySubset(s: LoaderState, cs: seq<Content>)
    ensures forall c :: c in UsableOnly(s, cs) ==> c in cs && Usable(s, InfoOf(c))
    decreases |cs|
  {
    if cs != [] {
      UsableOnlySubset(s, cs[1..]);
    }
  }

  /** A normally finished list holds no include any more: each one was
      dropped by the filter, dropped as a missing optional file, or replaced
      by the included element. */
  lemma NoIncludesRemain(s: LoaderState, ctx: Context, alts: seq<Kind>, items: seq<Content>)
    requires FinishContents(s, ctx, alts, items).thrown.None?
    ensures forall c :: c in FinishContents(s, ctx, alts, items).items ==> c.ElementItem?
  {
    FinishReference(s, ctx, alts, items);
    KeptAreElements(s, ctx, alts, items);
    UsableOnlySubset(s, Kept(s, ctx, alts, items));
  }

  /** Every entry of a normally finished list passes the filter. */
  lemma FinishedAreUsable(s: LoaderState, ctx: Context, alts: seq<Kind>, items: seq<Content>)
    requires FinishContents(s, ctx, alts, items).thrown.None?
    ensures forall c :: c in FinishContents(s, ctx, alts, items).items ==> Usable(s, InfoOf(c))
  {
    FinishReference(s, ctx, alts, items);
    UsableOnlySubset(s, Kept(s, ctx, alts, items));
  }

  /** All entries of a normally finished list hold one alternative. */
  lemma FinishedHomogeneous(s: LoaderState, ctx: Context, alts: seq<Kind>, items: seq<Content>)
    requires FinishContents(s, ctx, alts, items).thrown.None?
    ensures var out := FinishContents(s, ctx, alts, items).items;
      forall i, j :: 0 <= i < |out| && 0 <= j < |out| ==> VariantIndex(out[i]) == VariantIndex(out[j])
  {
    var kept := Kept(s, ctx, alts, items);
    FinishReference(s, ctx, alts, items);
    UsableOnlySubset(s, kept);
    var out := FinishContents(s, ctx, alts, items).items;
    forall i, j | 0 <= i < |out| && 0 <= j < |out|
      ensures VariantIndex(out[i]) == VariantIndex(out[j])
    {
      assert out[i] in kept && out[j] in kept;
      var ki :| 0 <= ki < |kept| && kept[ki] == out[i];
      var kj :| 0 <= kj < |kept| && kept[kj] == out[j];
    }
  }

  lemma {:induction false} KeptHasHolds(s: LoaderState, ctx: Context, alts: seq<Kind>, items: seq<Content>, i: nat)
    requires i < |items| && Slot(s, ctx, alts, items[i]).Holds?
    ensures Slot(s, ctx, alts, items[i]).entry in Kept(s, ctx, alts, items)
    decreases i
  {
    if i > 0 {
      assert items[1..][i - 1] == items[i];
      KeptHasHolds(s, ctx, alts, items[1..], i - 1);
    }
  }

  /** Two entries that survive the include step with different alternatives
      make the pass throw, even when the filter would have dropped either of
      them; when no include step raises, what it throws is the mixture error. */
  lemma MixedSiblingsThrow(s: LoaderState, ctx: Context, alts: seq<Kind>, items: seq<Content>, i: nat, j: nat)
    requires i < |items| && j < |items|
    requires Slot(s, ctx, alts, items[i]).Holds? && Slot(s, ctx, alts, items[j]).Holds?
    requires VariantIndex(Slot(s, ctx, alts, items[i]).entry) != VariantIndex(Slot(s, ctx, alts, items[j]).entry)
    ensures FinishContents(s, ctx, alts, items).thrown.Some?
    ensures IncludesResolve(s, ctx, alts, items) ==>
      FinishContents(s, ctx, alts, items).thrown == Some(XmlException(MixedChildElements))
  {
    var kept := Kept(s, ctx, alts, items);
    FinishReference(s, ctx, alts, items);
    KeptHasHolds(s, ctx, alts, items, i);
    KeptHasHolds(s, ctx, alts, items, j);
    var ci := Slot(s, ctx, alts, items[i]).entry;
    var cj := Slot(s, ctx, alts, items[j]).entry;
    var a :| 0 <= a < |kept| && kept[a] == ci;
    var b :| 0 <= b < |kept| && kept[b] == cj;
    assert !Homogeneous(kept);
    WalkThrownCause(s, ctx, alts, [], items, None);
  }

  lemma {:induction false} UsableOnlyEmbeds(s: LoaderState, ctx: Context, alts: seq<Kind>, items: seq<Content>)
    ensures Embeds(s, ctx, alts, UsableOnly(s, Kept(s, ctx, alts, items)), items)
    decreases |items|
  {
    if items != [] {
      var tail := items[1..];
      UsableOnlyEmbeds(s, ctx, alts, tail);
      match Slot(s, ctx, alts, items[0])
      case Holds(c) =>
        var kept := [c] + Kept(s, ctx, alts, tail);
        assert kept[0] == c && kept[1..] == Kept(s, ctx, alts, tail);
      case _ =>
    }
  }

  lemma {:induction false} EmbedsLength(s: LoaderState, ctx: Context, alts: seq<Kind>, out: seq<Content>, items: seq<Content>)
    requires Embeds(s, ctx, alts, out, items)
    ensures |out| <= |items|
    decreases |items|
  {
    if items != [] {
      if out != [] && Slot(s, ctx, alts, items[0]) == Holds(out[0]) && Embeds(s, ctx, alts, out[1..], items[1..]) {
        EmbedsLength(s, ctx, alts, out[1..], items[1..]);
      } else {
        EmbedsLength(s, ctx, alts, out, items[1..]);
      }
    }
  }

  /** A normally finished list keeps the order of the original entries: each
      entry is either erased or replaced in its own slot, and nothing is added. */
  lemma FinishPreservesOrder(s: LoaderState, ctx: Context, alts: seq<Kind>, items: seq<Content>)
    requires FinishContents(s, ctx, alts, items).thrown.None?
    ensures Embeds(s, ctx, alts, FinishContents(s, ctx, alts, items).items, items)
    ensures |FinishContents(s, ctx, alts, items).items| <= |items|
  {
    FinishReference(s, ctx, alts, items);
    UsableOnlyEmbeds(s, ctx, alts, items);
    EmbedsLength(s, ctx, alts, FinishContents(s, ctx, alts, items).items, items);
  }

  lemma {:induction false} UnfilteredKeepsAll(s: LoaderState, cs: seq<Content>)
    requires Unfiltered(s)
    ensures UsableOnly(s, cs) == cs
    decreases |cs|
  {
    if cs != [] {
      UnfilteredKeepsAll(s, cs[1..]);
      assert [cs[0]] + cs[1..] == cs;
    }
  }

  /** Without filters a normally finished list is exactly what the include
      step keeps. */
  lemma UnfilteredFinish(s: LoaderState, ctx: Context, alts: seq<Kind>, items: seq<Content>)
    requires Unfiltered(s)
    requires FinishContents(s, ctx, alts, items).thrown.None?
    ensures FinishContents(s, ctx, alts, items).items == Kept(s, ctx, alts, items)
  {
    FinishReference(s, ctx, alts, items);
    UnfilteredKeepsAll(s, Kept(s, ctx, alts, items));
  }

  lemma {:induction false} KeptWellTyped(s: LoaderState, ctx: Context, alts: seq<Kind>, items: seq<Content>)
    requires WellTyped(alts, items)
    ensures WellTyped(alts, Kept(s, ctx, alts, items))
    decreases |items|
  {
    if items != [] {
      assert forall i :: 0 <= i < |items[1..]| ==> items[1..][i] == items[i + 1];
      KeptWellTyped(s, ctx, alts, items[1..]);
      var kept := Kept(s, ctx, alts, items);
      match Slot(s, ctx, alts, items[0])
      case Holds(c) =>
        assert kept == [c] + Kept(s, ctx, alts, items[1..]);
        assert forall i :: 0 < i < |kept| ==> kept[i] == Kept(s, ctx, alts, items[1..])[i - 1];
      case _ =>
    }
  }

  lemma {:induction false} UsableOnlyWellTyped(s: LoaderState, alts: seq<Kind>, cs: seq<Content>)
    requires WellTyped(alts, cs)
    ensures WellTyped(alts, UsableOnly(s, cs))
    decreases |cs|
  {
    if cs != [] {
      assert forall i :: 0 <= i < |cs[1..]| ==> cs[1..][i] == cs[i + 1];
      UsableOnlyWellTyped(s, alts, cs[1..]);
      var out := UsableOnly(s, cs);
      if Usable(s, InfoOf(cs[0])) {
        assert forall i :: 0 < i < |out| ==> out[i] == UsableOnly(s, cs[1..])[i - 1];
      }
    }
  }

  /** A resolved include takes the alternative of its root element's kind, so
      a well-typed list stays well-typed, and all its finished entries are
      elements of one kind. */
  lemma FinishWellTyped(s: LoaderState, ctx: Context, alts: seq<Kind>, items: seq<Content>)
    requires WellTyped(alts, items)
    requires FinishContents(s, ctx, alts, items).thrown.None?
    ensures WellTyped(alts, FinishContents(s, ctx, alts, items).items)
    ensures var out := FinishContents(s, ctx, alts, items).items;
      forall i, j :: 0 <= i < |out| && 0 <= j < |out| ==>
        out[i].ElementItem? && out[j].ElementItem? && out[i].element.kind == out[j].element.kind
  {
    var out := FinishContents(s, ctx, alts, items).items;
    FinishReference(s, ctx, alts, items);
    KeptWellTyped(s, ctx, alts, items);
    UsableOnlyWellTyped(s, alts, Kept(s, ctx, alts, items));
    NoIncludesRemain(s, ctx, alts, items);
    FinishedHomogeneous(s, ctx, alts, items);
    forall i, j | 0 <= i < |out| && 0 <= j < |out|
      ensures out[i].ElementItem? && out[j].ElementItem? && out[i].element.kind == out[j].element.kind
    {
      assert out[i] in out && out[j] in out;
      assert VariantIndex(out[i]) == VariantIndex(out[j]);
    }
  }

  /** The include step: a document of a permitted kind replaces the include in
      its slot, one of another kind is an XmlException, a FileException drops
      an optional include (or any include under the override) and is rethrown
      otherwise, and every other exception passes through. */
  lemma ReadIncludeOutcomes(s: LoaderState, ctx: Context, alts: seq<Kind>, inc: Include)
    ensures var r := ReadInclude(s, ctx, alts, inc);
      var doc := ctx.readDocument(IncludePath(s, ctx, inc));
      && (r.Erased? <==> doc.ReadFailure? && doc.error.FileException? && (inc.optional || s.alwaysOptional))
      && (r.Holds? <==> doc.Document? && doc.root.kind in alts)
      && (r.Holds? ==> r.entry.ElementItem? && r.entry.element == doc.root && alts[r.entry.alt] == doc.root.kind)
      && (doc.Document? && doc.root.kind !in alts ==> r == Failed(XmlException(UnexpectedRootElement)))
      && (doc.ReadFailure? && !(doc.error.FileException? && (inc.optional || s.alwaysOptional)) ==> r == Failed(doc.error))
  {
  }

  /** For one and the same read outcome, the override makes an include behave
      like one marked optional. `ctx.readDocument` does not depend on the
      loader state, so what the override does to the includes inside the
      included document is outside this statement. */
  lemma AlwaysOptionalActsAsOptional(s: LoaderState, ctx: Context, alts: seq<Kind>, inc: Include)
    ensures ReadInclude(s.(alwaysOptional := true), ctx, alts, inc) == ReadInclude(s, ctx, alts, inc.(optional := true))
  {
  }

  /** An include whose file cannot be opened at all is erased under the
      override and when it is marked optional, whatever the loader state. */
  lemma MissingFileErasedWhenOptional(s: LoaderState, ctx: Context, alts: seq<Kind>, inc: Include, m: string)
    requires ctx.readDocument(IncludePath(s, ctx, inc)) == ReadFailure(FileException(m))
    ensures ReadInclude(s.(alwaysOptional := true), ctx, alts, inc) == Erased
    ensures ReadInclude(s, ctx, alts, inc.(optional := true)) == Erased
    ensures !inc.optional && !s.alwaysOptional ==> ReadInclude(s, ctx, alts, inc) == Failed(FileException(m))
  {
  }

  /** A container holding one category and, after it, a mandatory include of
      another category file finishes as the two categories in document order;
      if the included file cannot be read, the pass throws that FileException. */
  lemma IncludedCategoryFollowsExample(s: LoaderState, ctx: Context, first: Element, inc: Include, included: Element, missing: string)
    requires Unfiltered(s) && !s.alwaysOptional
    requires first.kind == Category && !inc.optional
    ensures ctx.readDocument(IncludePath(s, ctx, inc)) == Document(included) && included.kind == Category ==>
      FinishContents(s, ctx, [Category], [ElementItem(0, first), IncludeItem(inc)])
        == Finished([ElementItem(0, first), ElementItem(0, included)], None)
    ensures ctx.readDocument(IncludePath(s, ctx, inc)) == ReadFailure(FileException(missing)) ==>
      FinishContents(s, ctx, [Category], [ElementItem(0, first), IncludeItem(inc)]).thrown == Some(FileException(missing))
  {
    var e1 := ElementItem(0, first);
    var items := [e1, IncludeItem(inc)];
    assert items[1..] == [IncludeItem(inc)] && items[1..][1..] == [];
    UnfilteredAllUsable(s, first.info);
    UnfilteredAllUsable(s, inc.info);
    UnfilteredAllUsable(s, included.info);
    assert Slot(s, ctx, [Category], e1) == Holds(e1) && VariantIndex(e1) == 1;
    assert items[0] == e1 && [] + [e1] == [e1];
    assert FinishContents(s, ctx, [Category], items) == Walk(s, ctx, [Category], [e1], [IncludeItem(inc)], Some(1));
    if ctx.readDocument(IncludePath(s, ctx, inc)) == Document(included) && included.kind == Category {
      var e2 := ElementItem(0, included);
      assert ConvertElement([Category], Category) == Some(0);
      assert Slot(s, ctx, [Category], IncludeItem(inc)) == Holds(e2);
      assert Walk(s, ctx, [Category], [e1], [IncludeItem(inc)], Some(1)) == Walk(s, ctx, [Category], [e1, e2], [], Some(1));
    }
    if ctx.readDocument(IncludePath(s, ctx, inc)) == ReadFailure(FileException(missing)) {
      assert Slot(s, ctx, [Category], IncludeItem(inc)) == Failed(FileException(missing));
    }
  }
}
