/** The loader object of the settings-schema subsystem: its filter
    configuration, the filter test, the include reader and the in-place
    content finisher, each proved against the specification in `Finish`. */
module SettingsConfig {
  import opened Wrappers
  import opened QtStrings
  import opened Schema
  import opened Filters
  import opened Finish

  /** A container's content list as the parser produced it; the finisher
      edits it in place. */
  class ContentList {
    var items: seq<Content>

    constructor (items: seq<Content>)
      ensures this.items == items
    {
      this.items := items;
    }
  }

  class SettingsConfigImpl {
    var frontend: Option<string>
    var selector: Option<FileSelector>
    var alwaysOptional: bool

    /** A fresh loader filters nothing and honours each include's own
        `optional` flag. */
    constructor ()
      ensures State() == LoaderState(None, None, false)
    {
      frontend := None;
      selector := None;
      alwaysOptional := false;
    }

    /** The filter configuration the specification functions take. */
    function State(): LoaderState
      reads this
    {
      LoaderState(frontend, selector, alwaysOptional)
    }

    method SetFilters(frontend: Option<string>, selector: Option<FileSelector>)
      modifies this
      ensures State() == LoaderState(frontend, selector, old(alwaysOptional))
    {
      this.frontend := frontend;
      this.selector := selector;
    }

    /** Clears the frontend to a null string and drops the selector, which
        makes every node usable again. */
    method ResetFilters()
      modifies this
      ensures State() == LoaderState(None, None, old(alwaysOptional))
      ensures forall info :: Usable(State(), info)
    {
      frontend := None;
      selector := None;
      forall info | true
        ensures Usable(State(), info)
      {
        UnfilteredAllUsable(State(), info);
      }
    }

    method SetIncludesOptional(alwaysOptional: bool)
      modifies this
      ensures State() == LoaderState(old(frontend), old(selector), alwaysOptional)
    {
      this.alwaysOptional := alwaysOptional;
    }

    /** The filter test on one node's attributes. */
    method IsUsable(element: Info) returns (usable: bool)
      ensures usable == Usable(State(), element)
    {
      if frontend.Some? && element.frontends.Some? {
        var fronts := SplitSkipEmpty(element.frontends.value, '|');
        if frontend.value !in fronts {
          return false;
        }
      }
      if selector.Some? && element.selectors.Some? {
        var selectors := selector.value.allSelectors;
        var selects := SplitSkipEmpty(element.selectors.value, '|');
        var t := 0;
        while t < |selects|
          invariant 0 <= t <= |selects|
          invariant forall u :: 0 <= u < t ==> !TermSatisfied(selects[u], selectors)
        {
          var sels := SplitSkipEmpty(selects[t], '&');
          var allSelected := true;
          var k := 0;
          while k < |sels|
            invariant 0 <= k <= |sels|
            invariant allSelected <==> forall m :: 0 <= m < k ==> sels[m] in selectors
          {
            if sels[k] !in selectors {
              allSelected := false;
              break;
            }
            k := k + 1;
          }
          if allSelected {
            assert selects[t] in selects && TermSatisfied(selects[t], selectors);
            return true;
          }
          t := t + 1;
        }
        return false;
      }
      return true;
    }

    /** Reads the usable include held at position `i` of `group`: a permitted
        root element overwrites the slot, a FileException erases an optional
        include and is rethrown otherwise, and any other exception passes
        through with the list untouched. */
    method ReadGeneralInclude(ctx: Context, alts: seq<Kind>, inc: Include, group: ContentList, i: nat)
      returns (kept: bool, thrown: Option<LoadError>)
      requires i < |group.items|
      modifies group
      ensures var r := ReadInclude(State(), ctx, alts, inc);
        && kept == r.Holds?
        && thrown == (if r.Failed? then Some(r.error) else None)
        && group.items == match r
             case Erased => old(group.items)[..i] + old(group.items)[i + 1..]
             case Failed(_) => old(group.items)
             case Holds(c) => old(group.items)[i := c]
    {
      var path := inc.includePath;
      if selector.Some? {
        path := selector.value.select(path);
      }
      if ctx.fileName.Some? {
        path := ctx.absoluteFilePath(ctx.fileName.value, path);
      }
      var doc := ctx.readDocument(path);
      match doc
      case Document(root) =>
        var alt := ConvertElement(alts, root.kind);
        if alt.Some? {
          group.items := group.items[i := ElementItem(alt.value, root)];
          kept, thrown := true, None;
        } else {
          kept, thrown := false, Some(XmlException(UnexpectedRootElement));
        }
      case ReadFailure(e) =>
        if e.FileException? && (inc.optional || alwaysOptional) {
          group.items := group.items[..i] + group.items[i + 1..];
          kept, thrown := false, None;
        } else {
          kept, thrown := false, Some(e);
        }
    }

    /** Finishes one container's content list in place: includes are dropped
        or resolved, mixed alternatives raise, and nodes that fail the filter
        are erased. The list and the exception are those of the
        specification. */
    method FinishContents(ctx: Context, alts: seq<Kind>, group: ContentList) returns (thrown: Option<LoadError>)
      modifies group
      ensures Finish.FinishContents(State(), ctx, alts, old(group.items)) == Finished(group.items, thrown)
    {
      ghost var s := State();
      ghost var original := group.items;
      var i := 0;
      var index: Option<nat> := None;
      thrown := None;
      while i < |group.items|
        invariant 0 <= i <= |group.items|
        invariant thrown.None?
        invariant Walk(s, ctx, alts, group.items[..i], group.items[i..], index) == Walk(s, ctx, alts, [], original, None)
        decreases |group.items| - i
      {
        ghost var before := group.items;
        SlicesAt(before, i);
        var entry := group.items[i];
        if entry.IncludeItem? {
          var usable := IsUsable(entry.inc.info);
          if !usable {
            WalkErased(s, ctx, alts, before[..i], before[i..], index);
            group.items := group.items[..i] + group.items[i + 1..];
            SlicesAfterErase(before, i);
            continue;
          }
          ghost var outcome := ReadInclude(s, ctx, alts, entry.inc);
          assert Slot(s, ctx, alts, before[i..][0]) == outcome;
          var kept;
          kept, thrown := ReadGeneralInclude(ctx, alts, entry.inc, group, i);
          if thrown.Some? {
            WalkFailed(s, ctx, alts, before[..i], before[i..], index);
            return;
          }
          if !kept {
            WalkErased(s, ctx, alts, before[..i], before[i..], index);
            SlicesAfterErase(before, i);
            continue;
          }
          WalkResolved(s, ctx, alts, before[..i], before[i..], index);
          SlicesAfterReplace(before, i, group.items[i]);
        }
        ghost var current := group.items;
        SlicesAt(current, i);
        var c := group.items[i];
        if index.Some? && index.value != VariantIndex(c) {
          WalkMixed(s, ctx, alts, current[..i], current[i..], index);
          thrown := Some(XmlException(MixedChildElements));
          return;
        }
        WalkElement(s, ctx, alts, current[..i], current[i..], index);
        if index.None? {
          index := Some(VariantIndex(c));
        }
        var usable := IsUsable(InfoOf(c));
        if usable {
          i := i + 1;
          assert group.items[..i] == current[..i - 1] + [c];
        } else {
          group.items := group.items[..i] + group.items[i + 1..];
          SlicesAfterErase(current, i);
        }
      }
      assert group.items[..i] == group.items;
    }
  }

  lemma SlicesAt(items: seq<Content>, i: nat)
    requires i < |items|
    ensures items[i..] != [] && items[i..][0] == items[i] && items[i..][1..] == items[i + 1..]
    ensures items[..i] + items[i..] == items
  {
  }

  lemma SlicesAfterErase(items: seq<Content>, i: nat)
    requires i < |items|
    ensures (items[..i] + items[i + 1..])[..i] == items[..i]
    ensures (items[..i] + items[i + 1..])[i..] == items[i + 1..]
  {
  }

  lemma SlicesAfterReplace(items: seq<Content>, i: nat, c: Content)
    requires i < |items|
    ensures items[i := c][..i] == items[..i]
    ensures items[i := c][i..] == [c] + items[i + 1..]
  {
  }
}
