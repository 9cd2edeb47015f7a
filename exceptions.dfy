/** The controller advice that turns an exception into an HTTP error response: a missing
    resource becomes 404 with its own message, anything else 500 with a fixed message.
    Both strip "uri=" from the request description to form the path. */
module Exceptions {
  import opened Wrappers
  import opened Entities

  const NOT_FOUND: int := 404
  const INTERNAL_SERVER_ERROR: int := 500
  const ResourceNotFound: string := "Resource Not Found"
  const UnexpectedError: string := "An unexpected error occurred. Please try again later."
  /** The marker a servlet request description puts in front of its URI. */
  const UriMarker: string := "uri="

  /** The exceptions that reach the advice; a message may be absent (Java's null). */
  datatype Exception =
    | ResourceNotFoundException(message: Option<string>)
    | OtherException(simpleName: string, message: Option<string>)

  /** `ex.getClass().getSimpleName()` */
  function SimpleName(ex: Exception): string
  {
    match ex
    case ResourceNotFoundException(_) => "ResourceNotFoundException"
    case OtherException(name, _) => name
  }

  datatype ErrorResponse = ErrorResponse(
    status: int,
    message: Option<string>,
    error: string,
    timestamp: Timestamp,
    path: string)

  /** The response body together with the HTTP status the response carries. */
  datatype ResponseEntity = ResponseEntity(body: ErrorResponse, statusCode: int)

  /** The marker starts at position j of s. */
  predicate MarkerAt(s: string, j: int)
  {
    0 <= j && j + |UriMarker| <= |s| && s[j..j + |UriMarker|] == UriMarker
  }

  predicate ContainsMarker(s: string)
  {
    exists j :: 0 <= j <= |s| && MarkerAt(s, j)
  }

  /** `s.replace("uri=", "")`: scanning left to right, every occurrence of the marker that
      does not overlap an earlier removed one is dropped. */
  function RemoveMarker(s: string): (r: string)
    ensures |r| <= |s|
    decreases |s|
  {
    if MarkerAt(s, 0) then RemoveMarker(s[|UriMarker|..])
    else if s == [] then []
    else [s[0]] + RemoveMarker(s[1..])
  }

  /** `s.indexOf("uri=", from)`: the first position at or after `from` where the marker
      starts, or -1. */
  function IndexOfMarker(s: string, from: nat): (i: int)
    requires from <= |s|
    ensures i == -1 || (from <= i && MarkerAt(s, i))
    ensures forall j :: from <= j && (i == -1 || j < i) ==> !MarkerAt(s, j)
    decreases |s| - from
  {
    if from + |UriMarker| > |s| then -1
    else if MarkerAt(s, from) then from
    else IndexOfMarker(s, from + 1)
  }

  /** The replacement loop of the Java library, written as recursion: copy up to the next
      match found by indexOf, skip the match, and search again after it. */
  function ReplaceFrom(s: string, from: nat): string
    requires from <= |s|
    decreases |s| - from
  {
    var i := IndexOfMarker(s, from);
    if i < 0 then s[from..]
    else s[from..i] + ReplaceFrom(s, i + |UriMarker|)
  }

  /** Characters before the first match are copied through unchanged. */
  lemma {:induction false} CopiesUpToFirstMatch(s: string, k: nat)
    requires k <= |s|
    requires forall j :: 0 <= j < k ==> !MarkerAt(s, j)
    ensures RemoveMarker(s) == s[..k] + RemoveMarker(s[k..])
  {
    if k > 0 {
      assert !MarkerAt(s, 0) && s != [];
      forall j | 0 <= j < k - 1 ensures !MarkerAt(s[1..], j) {
        assert !MarkerAt(s, j + 1);
        if j + |UriMarker| <= |s[1..]| {
          assert s[1..][j..j + |UriMarker|] == s[j + 1..j + 1 + |UriMarker|];
        }
      }
      CopiesUpToFirstMatch(s[1..], k - 1);
      assert s[1..][k - 1..] == s[k..];
      assert [s[0]] + s[1..][..k - 1] == s[..k];
    }
  }

  /** Without a marker, every position is copied: the description comes back as it was. */
  lemma NoMarkerUnchanged(s: string)
    requires !ContainsMarker(s)
    ensures RemoveMarker(s) == s
  {
    CopiesUpToFirstMatch(s, |s|);
    assert s[|s|..] == [];
    assert s[..|s|] == s;
  }

  /** With a marker the result is strictly shorter. */
  lemma MarkerShortens(s: string)
    requires ContainsMarker(s)
    ensures |RemoveMarker(s)| < |s|
  {
    var j :| MarkerAt(s, j);
    var i := IndexOfMarker(s, 0);
    CopiesUpToFirstMatch(s, i);
    assert s[i..][..|UriMarker|] == UriMarker;
    assert MarkerAt(s[i..], 0);
  }

  /** The rewrite leaves a description unchanged exactly when it holds no marker; so the
      path differs from the description whenever, and only when, "uri=" occurs in it. */
  lemma UnchangedIffNoMarker(s: string)
    ensures RemoveMarker(s) == s <==> !ContainsMarker(s)
  {
    if ContainsMarker(s) {
      MarkerShortens(s);
    } else {
      NoMarkerUnchanged(s);
    }
  }

  /** A match in a suffix is a match in the whole string, shifted. */
  lemma MarkerInSuffix(s: string, from: nat, j: nat)
    requires from <= |s|
    ensures MarkerAt(s[from..], j) <==> MarkerAt(s, from + j)
  {
    if j + |UriMarker| <= |s| - from {
      assert s[from..][j..j + |UriMarker|] == s[from + j..from + j + |UriMarker|];
    }
  }

  /** At the first match, the text before it is kept and the marker itself dropped. */
  lemma DropsFirstMatch(t: string, k: nat)
    requires MarkerAt(t, k)
    requires forall j :: 0 <= j < k ==> !MarkerAt(t, j)
    ensures RemoveMarker(t) == t[..k] + RemoveMarker(t[k + |UriMarker|..])
  {
    CopiesUpToFirstMatch(t, k);
    MarkerInSuffix(t, k, 0);
    assert t[k..][|UriMarker|..] == t[k + |UriMarker|..];
  }

  /** When indexOf finds nothing from `from` on, the rest is copied unchanged. */
  lemma RestWithoutMatch(s: string, from: nat)
    requires from <= |s| && IndexOfMarker(s, from) < 0
    ensures RemoveMarker(s[from..]) == s[from..]
  {
    var t := s[from..];
    forall j | 0 <= j <= |t| ensures !MarkerAt(t, j) {
      MarkerInSuffix(s, from, j);
    }
    NoMarkerUnchanged(t);
  }

  /** When indexOf finds the marker at i, the rest is the text up to i followed by the
      removal applied after the marker. */
  lemma RestWithMatch(s: string, from: nat, i: nat)
    requires from <= |s| && IndexOfMarker(s, from) == i
    ensures i + |UriMarker| <= |s|
    ensures RemoveMarker(s[from..]) == s[from..i] + RemoveMarker(s[i + |UriMarker|..])
  {
    var t := s[from..];
    var k := i - from;
    forall j | 0 <= j < k ensures !MarkerAt(t, j) {
      MarkerInSuffix(s, from, j);
    }
    MarkerInSuffix(s, from, k);
    DropsFirstMatch(t, k);
    SuffixSlices(s, from, k, k + |UriMarker|);
  }

  lemma SuffixSlices(s: string, from: nat, k: nat, m: nat)
    requires from + m <= |s| && k <= m
    ensures s[from..][..k] == s[from..from + k]
    ensures s[from..][m..] == s[from + m..]
  {
  }

  /** The recursive rewrite agrees with the library's indexOf loop from any start position. */
  lemma {:induction false} ReplaceFromIsRemoveMarker(s: string, from: nat)
    requires from <= |s|
    ensures ReplaceFrom(s, from) == RemoveMarker(s[from..])
    decreases |s| - from
  {
    var i := IndexOfMarker(s, from);
    if i < 0 {
      RestWithoutMatch(s, from);
    } else {
      RestWithMatch(s, from, i);
      ReplaceFromIsRemoveMarker(s, i + |UriMarker|);
    }
  }

  /** `replace` as the library performs it is the left-to-right removal. */
  lemma ReplaceIsRemoveMarker(s: string)
    ensures ReplaceFrom(s, 0) == RemoveMarker(s)
  {
    ReplaceFromIsRemoveMarker(s, 0);
    assert s[0..] == s;
  }

  /** A servlet description "uri=" + u gives the path u when u holds no further marker. */
  lemma DescriptionGivesUri(u: string)
    requires !ContainsMarker(u)
    ensures RemoveMarker(UriMarker + u) == u
  {
    assert MarkerAt(UriMarker + u, 0);
    assert (UriMarker + u)[|UriMarker|..] == u;
    NoMarkerUnchanged(u);
  }

  /** A description without '=' holds no marker. */
  lemma NoEqualsNoMarker(s: string)
    requires forall j :: 0 <= j < |s| ==> s[j] != '='
    ensures !ContainsMarker(s)
  {
    forall j | 0 <= j <= |s| ensures !MarkerAt(s, j) {
      if j + |UriMarker| <= |s| {
        assert s[j..j + |UriMarker|][3] == s[j + 3] != UriMarker[3];
      }
    }
  }

  lemma OrdersPath()
    ensures RemoveMarker("uri=/api/orders") == "/api/orders"
  {
    var u := "/api/orders";
    assert forall j :: 0 <= j < |u| ==> u[j] != '=';
    NoEqualsNoMarker(u);
    assert "uri=/api/orders" == UriMarker + u;
    DescriptionGivesUri(u);
  }

  /** One pass only: removing the inner marker of "uuri=ri=" brings a new one together, which
      stays, so applying the rewrite twice differs from applying it once. */
  lemma SinglePassIsNotIdempotent()
    ensures RemoveMarker("uuri=ri=") == "uri="
    ensures RemoveMarker(RemoveMarker("uuri=ri=")) != RemoveMarker("uuri=ri=")
  {
    var s := "uuri=ri=";
    assert s[..|UriMarker|][1] != UriMarker[1];
    assert s[1..] == "uri=ri=" && MarkerAt(s[1..], 0);
    assert s[1..][4..] == "ri=";
    assert !ContainsMarker("ri=") by {
      forall j ensures !MarkerAt("ri=", j) { }
    }
    NoMarkerUnchanged("ri=");
    assert RemoveMarker(s) == "uri=";
    assert MarkerAt("uri=", 0);
    assert "uri="[4..] == [];
  }

  /** `handleResourceNotFoundException` */
  function HandleResourceNotFoundException(ex: Exception, description: string, now: Timestamp): ResponseEntity
    requires ex.ResourceNotFoundException?
  {
    ResponseEntity(
      ErrorResponse(NOT_FOUND, ex.message, ResourceNotFound, now, RemoveMarker(description)),
      NOT_FOUND)
  }

  /** `handleGlobalException` */
  function HandleGlobalException(ex: Exception, description: string, now: Timestamp): ResponseEntity
  {
    ResponseEntity(
      ErrorResponse(INTERNAL_SERVER_ERROR, Some(UnexpectedError), SimpleName(ex), now, RemoveMarker(description)),
      INTERNAL_SERVER_ERROR)
  }

  /** The advice's dispatch: the most specific handler wins, so a not-found exception goes to
      the 404 handler and every other exception to the catch-all. */
  function Handle(ex: Exception, description: string, now: Timestamp): (r: ResponseEntity)
    ensures r.body.status == r.statusCode
    ensures r.statusCode == NOT_FOUND <==> ex.ResourceNotFoundException?
    ensures r.statusCode == INTERNAL_SERVER_ERROR <==> !ex.ResourceNotFoundException?
    ensures ex.ResourceNotFoundException? ==> r.body.message == ex.message && r.body.error == ResourceNotFound
    ensures !ex.ResourceNotFoundException? ==> r.body.message == Some(UnexpectedError) && r.body.error == SimpleName(ex)
    ensures r.body.timestamp == now
    ensures r.body.path == RemoveMarker(description)
  {
    if ex.ResourceNotFoundException? then HandleResourceNotFoundException(ex, description, now)
    else HandleGlobalException(ex, description, now)
  }

  /** The catch-all never reveals the exception's message: two exceptions of the same class
      with different messages produce the same response. */
  lemma GlobalHandlerHidesMessage(name: string, m1: Option<string>, m2: Option<string>, description: string, now: Timestamp)
    ensures HandleGlobalException(OtherException(name, m1), description, now)
         == HandleGlobalException(OtherException(name, m2), description, now)
  {
  }

  /** The not-found handler always reveals the message: different messages give different
      responses. */
  lemma NotFoundHandlerShowsMessage(m1: Option<string>, m2: Option<string>, description: string, now: Timestamp)
    requires m1 != m2
    ensures HandleResourceNotFoundException(ResourceNotFoundException(m1), description, now)
         != HandleResourceNotFoundException(ResourceNotFoundException(m2), description, now)
  {
    var r1 := HandleResourceNotFoundException(ResourceNotFoundException(m1), description, now);
    assert r1.body.message == m1;
  }
}
