/** The frontend/selector filter that decides whether a schema node applies
    to the running application (`isUsable`), as a specification over the
    loader's filter state. */
module Filters {
  import opened Wrappers
  import opened QtStrings
  import opened Schema

  /** The QFileSelector the loader may be pointed at: its active selector
      names and its platform-specific path lookup. The loader holds a pointer
      to it, so it is an object compared by identity. */
  class FileSelector {
    const allSelectors: set<string>
    const select: string -> string

    constructor (allSelectors: set<string>, select: string -> string)
      ensures this.allSelectors == allSelectors && this.select == select
    {
      this.allSelectors := allSelectors;
      this.select := select;
    }
  }

  /** The loader's filter configuration: the frontend name (a null QString is
      `None`, an empty one is `Some("")`), the selector pointer and the
      "every include is optional" override. */
  datatype LoaderState = LoaderState(frontend: Option<string>, selector: Option<FileSelector>, alwaysOptional: bool)

  /** Neither a frontend nor a selector is configured. */
  predicate Unfiltered(s: LoaderState)
  {
    s.frontend.None? && s.selector.None?
  }

  /** The frontend names a `frontends` attribute allows. */
  function Frontends(frontends: string): seq<string>
  {
    SplitSkipEmpty(frontends, '|')
  }

  /** The OR-terms of a `selectors` expression. */
  function Terms(selectors: string): seq<string>
  {
    SplitSkipEmpty(selectors, '|')
  }

  /** The selector names one OR-term requires together. */
  function Requirements(term: string): seq<string>
  {
    SplitSkipEmpty(term, '&')
  }

  /** Every selector an OR-term names is active. */
  predicate TermSatisfied(term: string, active: set<string>)
  {
    forall sel :: sel in Requirements(term) ==> sel in active
  }

  /** Some OR-term of the expression is fully satisfied. */
  predicate ExpressionSatisfied(selectors: string, active: set<string>)
  {
    exists term :: term in Terms(selectors) && TermSatisfied(term, active)
  }

  /** The frontend check: passes when no frontend is configured, when the node
      declares no `frontends`, or when the frontend is one of the listed names. */
  predicate FrontendAllowed(frontend: Option<string>, frontends: Option<string>)
  {
    frontend.None? || frontends.None? || frontend.value in Frontends(frontends.value)
  }

  /** The selector check: passes when no selector is configured, when the node
      declares no `selectors`, or when its expression is satisfied by the active
      selector names. */
  predicate SelectorsAllowed(selector: Option<FileSelector>, selectors: Option<string>)
  {
    selector.None? || selectors.None? || ExpressionSatisfied(selectors.value, selector.value.allSelectors)
  }

  /** Whether a node with filter attributes `info` survives the filter. */
  predicate Usable(s: LoaderState, info: Info): (r: bool)
    ensures Unfiltered(s) ==> r
    ensures r && s.frontend.Some? && info.frontends.Some? ==> s.frontend.value != ""
    ensures r && s.selector.Some? && info.selectors.Some? ==> Terms(info.selectors.value) != []
  {
    FrontendAllowed(s.frontend, info.frontends) && SelectorsAllowed(s.selector, info.selectors)
  }

  /** Without a frontend and a selector every node is usable. */
  lemma UnfilteredAllUsable(s: LoaderState, info: Info)
    requires Unfiltered(s)
    ensures Usable(s, info)
  {
  }

  /** A configured frontend missing from a declared `frontends` list rejects
      the node whatever its selectors say. */
  lemma FrontendVeto(s: LoaderState, info: Info)
    requires s.frontend.Some? && info.frontends.Some?
    ensures Usable(s, info) ==> s.frontend.value in Frontends(info.frontends.value)
    ensures s.frontend.value in Frontends(info.frontends.value) ==> FrontendAllowed(s.frontend, info.frontends)
  {
  }

  /** An empty but non-null frontend never matches a declared list, because
      the list's empty parts are skipped. */
  lemma EmptyFrontendRejected(s: LoaderState, info: Info)
    requires s.frontend == Some("") && info.frontends.Some?
    ensures !Usable(s, info)
  {
  }

  /** A `selectors` value without a non-empty OR-term rejects the node once a
      selector is configured. */
  lemma NoTermsRejected(s: LoaderState, info: Info)
    requires s.selector.Some? && info.selectors.Some?
    requires Terms(info.selectors.value) == []
    ensures !Usable(s, info)
  {
  }

  /** An OR-term made only of `&` characters names no selector and is
      therefore satisfied by any active set. */
  lemma AmpersandTermSatisfied(term: string, active: set<string>)
    requires forall k :: 0 <= k < |term| ==> term[k] == '&'
    ensures TermSatisfied(term, active)
  {
    forall p | p in SplitAll(term, '&')
      ensures p == ""
    {
      SplitAllOnlySeparators(term, '&');
    }
  }

  /** The frontend check reads the `frontends` attribute as the `|`-joined
      list of names it is: for separator-free names `n0|n1|...`, the frontend
      passes exactly when it is a non-empty one of them. */
  lemma FrontendInJoinedList(frontend: string, names: seq<string>)
    requires |names| >= 1
    requires forall n :: n in names ==> '|' !in n
    ensures FrontendAllowed(Some(frontend), Some(Join(names, '|'))) <==> frontend != "" && frontend in names
  {
    SplitAllJoin(names, '|');
  }

  /** The selector check on a two-term expression `a1&a2|b` made of
      non-empty, separator-free names. */
  lemma SelectorsOfTwoTerms(active: set<string>, a1: string, a2: string, b: string)
    requires a1 != "" && a2 != "" && b != ""
    requires '|' !in a1 && '|' !in a2 && '|' !in b && '&' !in a1 && '&' !in a2 && '&' !in b
    ensures ExpressionSatisfied(a1 + "&" + a2 + "|" + b, active) <==> (a1 in active && a2 in active) || b in active
  {
    var t := a1 + "&" + a2;
    var e := a1 + "&" + a2 + "|" + b;
    assert '|' !in t;
    assert Join([t, b], '|') == e;
    SplitSkipEmptyJoin([t, b], '|');
    assert Terms(e) == [t, b];
    assert Join([a1, a2], '&') == t;
    SplitSkipEmptyJoin([a1, a2], '&');
    SplitSkipEmptyJoin([b], '&');
    assert Requirements(t) == [a1, a2];
    assert Requirements(b) == [b];
    assert TermSatisfied(t, active) <==> a1 in active && a2 in active;
    assert TermSatisfied(b, active) <==> b in active;
    if (a1 in active && a2 in active) || b in active {
      if b in active {
        assert b in Terms(e) && TermSatisfied(b, active);
      } else {
        assert t in Terms(e) && TermSatisfied(t, active);
      }
    }
  }

  /** `frontends="desktop|mobile"` admits the frontend "desktop" and rejects "web". */
  lemma DesktopMobileExample()
    ensures FrontendAllowed(Some("desktop"), Some("desktop|mobile"))
    ensures !FrontendAllowed(Some("web"), Some("desktop|mobile"))
    ensures FrontendAllowed(None, Some("desktop|mobile"))
  {
    assert Join(["desktop", "mobile"], '|') == "desktop|mobile";
    FrontendInJoinedList("desktop", ["desktop", "mobile"]);
    FrontendInJoinedList("web", ["desktop", "mobile"]);
  }

  /** `selectors="ios&phone|android"` rejects the active set {ios, tablet} and
      admits {ios, phone}. */
  lemma IosPhoneAndroidExample(e: string)
    requires e == "ios&phone|android"
    ensures !ExpressionSatisfied(e, {"ios", "tablet"})
    ensures ExpressionSatisfied(e, {"ios", "phone"})
  {
    var a1, a2, b := "ios", "phone", "android";
    assert '|' !in a1 && '|' !in a2 && '|' !in b && '&' !in a1 && '&' !in a2 && '&' !in b;
    assert a1 + "&" + a2 + "|" + b == e;
    SelectorsOfTwoTerms({"ios", "tablet"}, a1, a2, b);
    SelectorsOfTwoTerms({"ios", "phone"}, a1, a2, b);
  }
}
