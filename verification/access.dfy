/**
 * The two gates every request passes before a handler runs: the CORS origin
 * allow-list and the shared-secret check on the `x-access-key` header that
 * guards the mentor, task-write and admin routes.
 */
module Access {
  import opened Common

  /** What a gate decides: the request goes on, or is answered with an error. */
  datatype Gate = Pass | Deny(code: int, message: string)

  /** `!v` for an environment variable or header that may be unset. */
  predicate Blank(v: Option<string>) {
    v.None? || v.value == ""
  }

  /**
   * `requireKey(envName)`: an unset or empty key is a server misconfiguration
   * (500); otherwise the header must equal the key exactly (else 403).
   */
  function RequireKey(envName: string, expected: Option<string>, provided: Option<string>): (r: Gate)
    ensures Blank(expected) ==> r == Deny(500, envName + " not configured")
    ensures !Blank(expected) && provided != expected ==> r == Deny(403, "Access denied")
    ensures r == Pass <==> !Blank(expected) && provided == expected
  {
    if Blank(expected) then Deny(500, envName + " not configured")
    else if provided != expected then Deny(403, "Access denied")
    else Pass
  }

  /** A request without the header is refused whenever a key is configured. */
  lemma MissingHeaderDenied(envName: string, expected: Option<string>)
    requires !Blank(expected)
    ensures RequireKey(envName, expected, None) == Deny(403, "Access denied")
  {
  }

  /**
   * `CLIENT_ORIGIN.split(",").map(trim).filter(Boolean)`: every entry is
   * non-empty, carries no white space at either end, and is the trimmed form
   * of one comma-separated piece.
   */
  function AllowList(allowed: string): (r: seq<string>)
    ensures forall x :: x in r ==> x != "" && !IsSpace(x[0]) && !IsSpace(x[|x| - 1])
    ensures forall x :: x in r <==> x != "" && x in TrimAll(Split(allowed, ','))
    ensures |r| <= Count(allowed, ',') + 1
  {
    TrimAllTrimmed(Split(allowed, ','));
    NonEmpty(TrimAll(Split(allowed, ',')))
  }

  /**
   * The CORS origin callback: a request without an Origin, or a server
   * without CLIENT_ORIGIN, is allowed; otherwise the origin must be one of
   * the listed entries, compared exactly.
   */
  function CorsAllowed(origin: Option<string>, allowed: Option<string>): (r: bool)
    ensures Blank(origin) || Blank(allowed) ==> r
    ensures !Blank(origin) && !Blank(allowed) ==> (r <==> origin.value in AllowList(allowed.value))
  {
    if Blank(origin) then true
    else if Blank(allowed) then true
    else origin.value in AllowList(allowed.value)
  }

  /**
   * Entries are trimmed but the origin is not: an origin with white space at
   * either end is refused whenever an allow-list is configured.
   */
  lemma PaddedOriginRefused(origin: string, allowed: string)
    requires origin != "" && allowed != ""
    requires IsSpace(origin[0]) || IsSpace(origin[|origin| - 1])
    ensures !CorsAllowed(Some(origin), Some(allowed))
  {
  }

  /** A listed origin is allowed whatever white space surrounds it in the list. */
  lemma {:induction false} ListedOriginAllowed(origin: string, before: string, after: string)
    requires origin != "" && !IsSpace(origin[0]) && !IsSpace(origin[|origin| - 1])
    requires ',' !in origin && AllSpace(before) && AllSpace(after)
    ensures CorsAllowed(Some(origin), Some(before + origin + after))
  {
    var s := before + origin + after;
    assert ',' !in s by {
      forall i | 0 <= i < |s| ensures s[i] != ',' {
        if i < |before| { assert s[i] == before[i]; }
        else if i < |before| + |origin| { assert s[i] == origin[i - |before|]; }
        else { assert s[i] == after[i - |before| - |origin|]; }
      }
    }
    SplitWithoutSeparator(s, ',');
    TrimPadded(before, origin, after);
    assert TrimAll(Split(s, ','))[0] == origin;
  }
}
