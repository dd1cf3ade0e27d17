// Comparing table locations: a local path and its file: URI spellings name one place.
module Locations {

  import opened Texts

  predicate EndsInSlash(path: string) {
    path != "" && path[|path| - 1] == '/'
  }

  function DropLeading(path: string): (r: string) {
    if path != "" && path[0] == '/' then DropLeading(path[1..]) else path
  }

  /** Drops trailing slashes, but never the last character. */
  function DropTrailing(path: string): (r: string) {
    if |path| > 1 && EndsInSlash(path) then DropTrailing(path[..|path| - 1]) else path
  }

  const FILE_SCHEME := "file:"

  /** The path to compare: no file: prefix, one leading slash in its place, no trailing slash. */
  function Comparable(location: string): (r: string) {
    DropTrailing(if StartsWith(location, FILE_SCHEME) then "/" + DropLeading(location[5..]) else location)
  }

  method ComparableLocation(location: string) returns (path: string)
    ensures path == Comparable(location)
  {
    path := location;
    if StartsWith(path, FILE_SCHEME) {
      path := path[5..];
      var first := 0;
      while first < |path| && path[first] == '/'
        invariant 0 <= first <= |path|
        invariant DropLeading(path) == DropLeading(path[first..])
      {
        assert path[first..][1..] == path[first + 1..];
        first := first + 1;
      }
      path := "/" + path[first..];
    }
    while |path| > 1 && EndsInSlash(path)
      invariant DropTrailing(path) == Comparable(location)
    {
      path := path[..|path| - 1];
    }
  }

  /** A comparable path is a normal form: no scheme, and no slash at its end but the root's. */
  predicate IsNormal(path: string) {
    !StartsWith(path, FILE_SCHEME) && (|path| <= 1 || !EndsInSlash(path))
  }

  lemma {:induction false} DropTrailingStops(path: string)
    ensures DropTrailing(path) <= path
    ensures |DropTrailing(path)| <= 1 || !EndsInSlash(DropTrailing(path))
    ensures (|path| <= 1 || !EndsInSlash(path)) <==> DropTrailing(path) == path
    ensures path != "" ==> DropTrailing(path) != "" && DropTrailing(path)[0] == path[0]
  {
    if |path| > 1 && EndsInSlash(path) {
      DropTrailingStops(path[..|path| - 1]);
    }
  }

  lemma ComparableIsNormal(location: string)
    ensures IsNormal(Comparable(location))
  {
    var path := if StartsWith(location, FILE_SCHEME) then "/" + DropLeading(location[5..]) else location;
    DropTrailingStops(path);
    assert !StartsWith(path, FILE_SCHEME) by {
      if StartsWith(location, FILE_SCHEME) {
        assert path[0] == '/';
      }
    }
    PrefixesCarryOver(DropTrailing(path), path, FILE_SCHEME);
  }

  lemma PrefixesCarryOver(short: string, path: string, prefix: string)
    requires short <= path
    ensures StartsWith(short, prefix) ==> StartsWith(path, prefix)
  {
    if StartsWith(short, prefix) {
      assert path[..|prefix|] == short[..|prefix|];
    }
  }

  /** Comparing what was already made comparable changes nothing, and nothing else is left alone. */
  lemma ComparableIsIdempotent(location: string)
    ensures Comparable(Comparable(location)) == Comparable(location)
    ensures Comparable(location) == location <==> IsNormal(location)
  {
    ComparableIsNormal(location);
    NormalIsFixed(Comparable(location));
    if IsNormal(location) {
      NormalIsFixed(location);
    }
  }

  lemma NormalIsFixed(path: string)
    requires IsNormal(path)
    ensures Comparable(path) == path
  {
    DropTrailingStops(path);
  }

  /** A location that is no file: URI is compared as it is, but for slashes at its end. */
  lemma OnlySlashesDropped(location: string)
    requires !StartsWith(location, FILE_SCHEME)
    ensures Comparable(location) <= location
    ensures forall i :: |Comparable(location)| <= i < |location| ==> location[i] == '/'
  {
    TrailingDropped(location);
  }

  lemma {:induction false} TrailingDropped(path: string)
    ensures DropTrailing(path) <= path
    ensures forall i :: |DropTrailing(path)| <= i < |path| ==> path[i] == '/'
  {
    if |path| > 1 && EndsInSlash(path) {
      TrailingDropped(path[..|path| - 1]);
    }
  }

  function Slashes(n: nat): (r: string) {
    seq(n, _ => '/')
  }

  lemma {:induction false} DropLeadingSlashes(n: nat, rest: string)
    requires rest == "" || rest[0] != '/'
    ensures DropLeading(Slashes(n) + rest) == rest
  {
    if n == 0 {
      assert Slashes(0) + rest == rest;
    } else {
      assert (Slashes(n) + rest)[1..] == Slashes(n - 1) + rest;
      DropLeadingSlashes(n - 1, rest);
    }
  }

  lemma {:induction false} DropTrailingSlashes(path: string, n: nat)
    requires path != "" && (|path| == 1 || !EndsInSlash(path))
    ensures DropTrailing(path + Slashes(n)) == path
  {
    if n == 0 {
      assert path + Slashes(0) == path;
    } else {
      var longer := path + Slashes(n);
      assert longer[..|longer| - 1] == path + Slashes(n - 1);
      DropTrailingSlashes(path, n - 1);
    }
  }

  /**
   * Every spelling of an absolute path, the root's included, compares as the path: as a file: URI with
   * any slashes, and with any slashes after.
   */
  lemma SpellingsAgree(rest: string, before: nat, after: nat)
    requires rest == "" || (rest[0] != '/' && !EndsInSlash(rest))
    ensures Comparable(FILE_SCHEME + (Slashes(before) + (rest + Slashes(after)))) == "/" + rest
    ensures Comparable("/" + rest + Slashes(after)) == "/" + rest
  {
    var path := "/" + rest;
    assert path + Slashes(after) == "/" + (rest + Slashes(after));
    DropTrailingSlashes(path, after);
    var uri := FILE_SCHEME + (Slashes(before) + (rest + Slashes(after)));
    assert uri[..5] == FILE_SCHEME && uri[5..] == Slashes(before) + (rest + Slashes(after));
    if rest == "" {
      assert Slashes(before) + (rest + Slashes(after)) == Slashes(before + after) + "";
      DropLeadingSlashes(before + after, "");
    } else {
      DropLeadingSlashes(before, rest + Slashes(after));
    }
    DropTrailingSlashes("/", 0);
    assert "/" + Slashes(0) == "/";
    assert !StartsWith(path + Slashes(after), FILE_SCHEME) by { assert (path + Slashes(after))[0] == '/'; }
  }
}
