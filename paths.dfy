/**
 * String and path arithmetic of the REST service: where an endpoint is bound,
 * the prefix an `Application` contributes, and the externally visible context
 * of a bound endpoint.
 */
module Paths {
  import opened Wrappers

  /** The placeholder base every address is composed on before it is stripped off. */
  const NoPathPrefix: string := "http://nopath/"

  predicate StartsWith(s: string, prefix: string) {
    |prefix| <= |s| && s[..|prefix|] == prefix
  }

  predicate EndsWith(s: string, suffix: string) {
    |suffix| <= |s| && s[|s| - |suffix|..] == suffix
  }

  predicate OccursAt(s: string, sub: string, i: int) {
    0 <= i && i + |sub| <= |s| && s[i..i + |sub|] == sub
  }

  ghost predicate Occurs(s: string, sub: string) {
    exists i :: OccursAt(s, sub, i)
  }

  /** `String.indexOf`: the first position where `sub` occurs in `s`, or -1. */
  function IndexOf(s: string, sub: string): (r: int)
    ensures r == -1 || 0 <= r <= |s| - |sub|
    ensures r >= 0 ==> OccursAt(s, sub, r)
    ensures forall i :: 0 <= i && (r == -1 || i < r) ==> !OccursAt(s, sub, i)
    decreases |s|
  {
    if |sub| > |s| then -1
    else if s[..|sub|] == sub then 0
    else
      var r := IndexOf(s[1..], sub);
      ShiftOccurrence(s, sub);
      assert !OccursAt(s, sub, 0) by { assert s[0..|sub|] == s[..|sub|]; }
      if r < 0 then -1 else r + 1
  }

  lemma ShiftOccurrence(s: string, sub: string)
    requires |s| > 0
    ensures forall i :: 1 <= i ==> (OccursAt(s, sub, i) <==> OccursAt(s[1..], sub, i - 1))
  {
    forall i | 1 <= i
      ensures OccursAt(s, sub, i) <==> OccursAt(s[1..], sub, i - 1)
    {
      if i + |sub| <= |s| {
        assert s[1..][i - 1..i - 1 + |sub|] == s[i..i + |sub|];
      }
    }
  }

  /**
   * `getFullContext`: the bound address cut at the first occurrence of the
   * context root, followed by the context root, with one `/` put between
   * them when neither side supplies it. `None` when the context root does not
   * occur in the address (the source's `substring(0, -1)` throws).
   */
  function FullContext(address: string, context: Option<string>): (r: Option<string>)
    ensures context.None? ==> r == Some(address)
  {
    match context
    case None => Some(address)
    case Some(c) =>
      var idx := IndexOf(address, c);
      if idx < 0 then None
      else
        var base := address[..idx];
        if !EndsWith(base, "/") && !StartsWith(c, "/") then Some(base + "/" + c) else Some(base + c)
  }

  /**
   * The full context exists exactly when the context root occurs in the
   * address; it then starts with the address up to the first occurrence and
   * ends with the context root.
   */
  lemma FullContextSpec(address: string, context: Option<string>)
    ensures var r := FullContext(address, context);
      && (context.None? ==> r == Some(address))
      && (context.Some? ==> (r.Some? <==> Occurs(address, context.value)))
      && (r.Some? && context.Some? ==> EndsWith(r.value, context.value))
      && (r.Some? && context.Some? ==> StartsWith(r.value, address[..IndexOf(address, context.value)]))
  {
  }

  /**
   * When a `/` already separates the context root from what precedes it, the
   * full context is the bound address truncated right after the first
   * occurrence of the context root; otherwise exactly one `/` is inserted.
   */
  lemma FullContextCutsAddress(address: string, context: string)
    requires Occurs(address, context)
    ensures var i := IndexOf(address, context);
      && 0 <= i
      && (EndsWith(address[..i], "/") || StartsWith(context, "/") ==>
            FullContext(address, Some(context)) == Some(address[..i + |context|]))
      && (!EndsWith(address[..i], "/") && !StartsWith(context, "/") ==>
            FullContext(address, Some(context)) == Some(address[..i] + "/" + context))
  {
    var i := IndexOf(address, context);
    assert address[..i + |context|] == address[..i] + address[i..i + |context|];
  }

  /** Drops one leading `/`, as the source does with an `@ApplicationPath` value. */
  function DropLeadingSlash(p: string): (r: string)
    ensures StartsWith(p, "/") ==> "/" + r == p
    ensures !StartsWith(p, "/") ==> r == p
  {
    if StartsWith(p, "/") then p[1..] else p
  }

  /**
   * The prefix a JAX-RS `Application` publishes under: the web module's
   * context root followed by exactly one `/` (appended only if it does not
   * already end in one), then the `@ApplicationPath` value without its
   * leading `/`, if the class carries that annotation.
   */
  function AppPrefix(contextRoot: string, appPath: Option<string>): (r: string)
    ensures StartsWith(r, contextRoot)
    ensures EndsWith(contextRoot, "/") ==> r[|contextRoot|..] == DropLeadingSlash(appPath.GetOr(""))
    ensures !EndsWith(contextRoot, "/") ==>
      |r| > |contextRoot| && r[|contextRoot|] == '/' && r[|contextRoot| + 1..] == DropLeadingSlash(appPath.GetOr(""))
    ensures appPath.None? ==> EndsWith(r, "/")
  {
    var root := if EndsWith(contextRoot, "/") then contextRoot else contextRoot + "/";
    match appPath
    case None => root
    case Some(p) => root + DropLeadingSlash(p)
  }

  /**
   * Appends a resource path to a base URI path, with one `/` at the junction.
   * This stands for the JAX-RS `UriBuilder.path` call, whose encoding is not modelled.
   */
  function JoinPath(base: string, segment: string): (r: string)
    ensures |r| >= |base|
  {
    if segment == "" then base
    else if EndsWith(base, "/") && StartsWith(segment, "/") then base + segment[1..]
    else if EndsWith(base, "/") || StartsWith(segment, "/") then base + segment
    else base + "/" + segment
  }

  /** Joining keeps the base in front and the segment at the end, and adds nothing for an empty segment. */
  lemma JoinPathEnds(base: string, segment: string)
    ensures var r := JoinPath(base, segment);
      && StartsWith(r, base) && EndsWith(r, segment)
      && (segment == "" ==> r == base)
  {
    if segment != "" && EndsWith(base, "/") && StartsWith(segment, "/") {
      var r := JoinPath(base, segment);
      assert r[|r| - |segment|..] == [base[|base| - 1]] + segment[1..];
      assert segment == [segment[0]] + segment[1..];
    }
  }

  /** Joining a non-empty segment puts exactly one `/` at the junction. */
  lemma JoinPathJunction(base: string, segment: string)
    requires segment != ""
    ensures JoinPath(base, segment) ==
      (if EndsWith(base, "/") then base[..|base| - 1] else base) + "/" + DropLeadingSlash(segment)
  {
    if EndsWith(base, "/") {
      assert base == base[..|base| - 1] + "/";
    }
    if StartsWith(segment, "/") {
      assert segment == "/" + segment[1..];
    }
  }

  /**
   * `getAddress`: the placeholder base, then the context root if there is one,
   * then the resource class's `@Path` value, if any.
   */
  function Address(context: Option<string>, resourcePath: Option<string>): (r: string)
    ensures |r| >= |NoPathPrefix|
  {
    var root := if context.Some? then NoPathPrefix + context.value else NoPathPrefix;
    JoinPath(root, resourcePath.GetOr(""))
  }

  /**
   * An address starts with the placeholder base followed by the context root,
   * and ends with the resource class's `@Path` value.
   */
  lemma AddressSpec(context: Option<string>, resourcePath: Option<string>)
    ensures var r := Address(context, resourcePath);
      && StartsWith(r, NoPathPrefix)
      && (context.Some? ==> StartsWith(r, NoPathPrefix + context.value))
      && (resourcePath.Some? ==> EndsWith(r, resourcePath.value))
      && (resourcePath.None? ==> r == NoPathPrefix + context.GetOr(""))
  {
    var root := if context.Some? then NoPathPrefix + context.value else NoPathPrefix;
    JoinPathEnds(root, resourcePath.GetOr(""));
    if context.Some? {
      assert root[..|NoPathPrefix|] == NoPathPrefix;
    } else {
      assert NoPathPrefix + "" == NoPathPrefix;
    }
  }

  /**
   * The pattern a listener is registered under: the address followed by
   * `/.*`, so the listener serves the whole subtree, with the placeholder
   * scheme and host cut off so that the `/` after them stays in front. The
   * cut needs the text to be at least as long as the scheme and host.
   */
  function ListenerPattern(address: string): (r: string)
    requires |address + "/.*"| >= |NoPathPrefix| - 1
    ensures |r| == |address| + 3 - (|NoPathPrefix| - 1)
  {
    (address + "/.*")[|NoPathPrefix| - 1..]
  }

  /**
   * For an address on the placeholder base, the pattern starts with `/`, ends
   * with `/.*`, and is what follows the scheme and host in the address
   * followed by `/.*`.
   */
  lemma ListenerPatternSpec(address: string)
    requires StartsWith(address, NoPathPrefix)
    ensures var r := ListenerPattern(address);
      && StartsWith(r, "/") && EndsWith(r, "/.*")
      && "http://nopath" + r == address + "/.*"
  {
    var r := ListenerPattern(address);
    assert r[0] == address[|NoPathPrefix| - 1] == NoPathPrefix[|NoPathPrefix| - 1];
    assert (address + "/.*")[..|NoPathPrefix| - 1] == NoPathPrefix[..|NoPathPrefix| - 1];
    assert r[|r| - 3..] == (address + "/.*")[|address|..];
  }
}
