/** The two behaviours of QString::split that the filter relies on:
    splitting at a separator character keeping every part, and the
    SkipEmptyParts variant that drops the empty ones. */
module QtStrings {

  /** Splits `s` at every occurrence of `sep`, keeping empty parts: n separators
      give n + 1 parts. */
  function SplitAll(s: string, sep: char): (parts: seq<string>)
    ensures |parts| >= 1
    ensures forall p :: p in parts ==> sep !in p
    decreases |s|
  {
    if s == [] then [""]
    else
      var rest := SplitAll(s[1..], sep);
      if s[0] == sep then [""] + rest
      else [[s[0]] + rest[0]] + rest[1..]
  }

  /** Glues parts back together, with `sep` between two neighbours. */
  function Join(parts: seq<string>, sep: char): string
  {
    if parts == [] then ""
    else if |parts| == 1 then parts[0]
    else parts[0] + [sep] + Join(parts[1..], sep)
  }

  /** The parts that are not empty, in their order. */
  function NonEmpty(parts: seq<string>): (r: seq<string>)
    ensures |r| <= |parts|
    ensures forall p :: p in r <==> p in parts && p != ""
  {
    if parts == [] then []
    else if parts[0] == "" then NonEmpty(parts[1..])
    else [parts[0]] + NonEmpty(parts[1..])
  }

  /** QString::split(sep, QString::SkipEmptyParts). */
  function SplitSkipEmpty(s: string, sep: char): (parts: seq<string>)
    ensures forall p :: p in parts <==> p in SplitAll(s, sep) && p != ""
  {
    NonEmpty(SplitAll(s, sep))
  }

  /** Splitting loses nothing: joining the parts gives the string back. */
  lemma {:induction false} JoinSplitAll(s: string, sep: char)
    ensures Join(SplitAll(s, sep), sep) == s
    decreases |s|
  {
    if s != [] {
      var rest := SplitAll(s[1..], sep);
      JoinSplitAll(s[1..], sep);
      if s[0] == sep {
        assert SplitAll(s, sep) == [""] + rest;
        assert ([""] + rest)[1..] == rest;
      } else {
        var parts := [[s[0]] + rest[0]] + rest[1..];
        assert SplitAll(s, sep) == parts;
        if |rest| == 1 {
          assert parts == [[s[0]] + rest[0]];
        } else {
          assert parts[1..] == rest[1..];
          assert Join(rest, sep) == rest[0] + [sep] + Join(rest[1..], sep);
          assert s == [s[0]] + s[1..];
        }
      }
    }
  }

  /** A string without the separator is a single part. */
  lemma {:induction false} SplitAllNoSeparator(p: string, sep: char)
    requires sep !in p
    ensures SplitAll(p, sep) == [p]
    decreases |p|
  {
    if p != [] {
      SplitAllNoSeparator(p[1..], sep);
      assert [p[0]] + p[1..] == p;
    }
  }

  /** A separator-free prefix followed by a separator is split off as the first part. */
  lemma {:induction false} SplitAllAtSeparator(p: string, sep: char, r: string)
    requires sep !in p
    ensures SplitAll(p + [sep] + r, sep) == [p] + SplitAll(r, sep)
    decreases |p|
  {
    var s := p + [sep] + r;
    if p == [] {
      assert s[0] == sep && s[1..] == r;
    } else {
      assert s[1..] == p[1..] + [sep] + r;
      SplitAllAtSeparator(p[1..], sep, r);
      assert [p[0]] + p[1..] == p;
    }
  }

  /** Joining separator-free parts and splitting again gives the parts back. */
  lemma {:induction false} SplitAllJoin(parts: seq<string>, sep: char)
    requires |parts| >= 1
    requires forall p :: p in parts ==> sep !in p
    ensures SplitAll(Join(parts, sep), sep) == parts
    decreases |parts|
  {
    if |parts| == 1 {
      SplitAllNoSeparator(parts[0], sep);
    } else {
      assert parts[0] in parts;
      assert forall p :: p in parts[1..] ==> p in parts;
      SplitAllJoin(parts[1..], sep);
      SplitAllAtSeparator(parts[0], sep, Join(parts[1..], sep));
      assert [parts[0]] + parts[1..] == parts;
    }
  }

  /** Dropping empty parts leaves a list without empty parts as it is. */
  lemma {:induction false} NonEmptyKeeps(parts: seq<string>)
    requires forall p :: p in parts ==> p != ""
    ensures NonEmpty(parts) == parts
    decreases |parts|
  {
    if parts != [] {
      assert parts[0] in parts;
      assert forall p :: p in parts[1..] ==> p in parts;
      NonEmptyKeeps(parts[1..]);
      assert [parts[0]] + parts[1..] == parts;
    }
  }

  /** Splitting the join of non-empty, separator-free parts, skipping empty
      parts, gives the parts back. */
  lemma SplitSkipEmptyJoin(parts: seq<string>, sep: char)
    requires |parts| >= 1
    requires forall p :: p in parts ==> p != "" && sep !in p
    ensures SplitSkipEmpty(Join(parts, sep), sep) == parts
  {
    SplitAllJoin(parts, sep);
    NonEmptyKeeps(parts);
  }

  /** A string made only of separators splits into empty parts only. */
  lemma {:induction false} SplitAllOnlySeparators(s: string, sep: char)
    requires forall k :: 0 <= k < |s| ==> s[k] == sep
    ensures forall p :: p in SplitAll(s, sep) ==> p == ""
    decreases |s|
  {
    if s != [] {
      SplitAllOnlySeparators(s[1..], sep);
    }
  }
}
