/** The cross-origin part of the item service
    (infrastructure/functions/portfolio/handler.js): the allow-list read
    from `ALLOWED_ORIGIN`, the choice of the origin to answer with, and the
    `Access-Control-Allow-Origin` header value. */
module Cors {
  import opened Js
  import opened Wrappers

  /** The allow-list: `(ALLOWED_ORIGIN || '*').split(',')`, each entry
      trimmed, blank entries dropped. An unset variable defaults to '*',
      so it is passed here as "*". */
  function AllowedOrigins(raw: string): seq<string> {
    NonBlank(Split(if raw == "" then "*" else raw, ','))
  }

  /** An allow-list entry never contains ',', is never blank and carries no
      surrounding whitespace. */
  lemma AllowedOriginsEntries(raw: string)
    ensures forall i :: 0 <= i < |AllowedOrigins(raw)| ==>
              var e := AllowedOrigins(raw)[i]; e != "" && Trimmed(e) && ',' !in e
  {
    var parts := Split(if raw == "" then "*" else raw, ',');
    assert forall i :: 0 <= i < |parts| ==> parts[i] in parts;
    NonBlankEntries(parts, ',');
  }

  /** With the variable unset or empty the list is just '*'. */
  lemma AllowedOriginsDefault()
    ensures AllowedOrigins("") == ["*"]
  {
    SplitNoSeparator("*", ',');
    assert Trimmed("*");
  }

  /** pickOrigin(requestOrigin), with `""` standing for a missing request
      origin; `None` is the `undefined` that `allowedOrigins[0]` yields for
      an empty list. */
  function PickOrigin(allowed: seq<string>, request: string): (r: Option<string>)
    ensures "*" in allowed ==> r == Some("*")
    ensures "*" !in allowed && request == "" ==>
              r == Some(if allowed == [] || allowed[0] == "" then "*" else allowed[0])
    ensures "*" !in allowed && request != "" && request in allowed ==> r == Some(request)
    ensures "*" !in allowed && request != "" && request !in allowed ==>
              r == (if allowed == [] then None else Some(allowed[0]))
  {
    var first := if allowed == [] then None else Some(allowed[0]);
    if "*" in allowed then Some("*")
    else if request == "" then
      (if first.Some? && first.value != "" then first else Some("*"))
    else if request in allowed then Some(request)
    else first
  }

  /** The `Access-Control-Allow-Origin` value: `origin || '*'`. */
  function AllowOriginHeader(origin: Option<string>): (h: string)
    ensures h != ""
    ensures origin.Some? && origin.value != "" ==> h == origin.value
  {
    if origin.Some? && origin.value != "" then origin.value else "*"
  }

  /** Whatever the request says, the header names '*' or an entry of the
      allow-list, and without a configured wildcard it echoes the
      request's origin exactly when that origin is listed (an origin
      spelled "*" is set aside: an empty list answers it with '*'). */
  lemma HeaderOriginAllowed(raw: string, request: string)
    ensures var allowed := AllowedOrigins(raw);
            var h := AllowOriginHeader(PickOrigin(allowed, request));
            (h == "*" || h in allowed) &&
            ("*" !in allowed && request != "" && request != "*" ==>
               (h == request <==> request in allowed))
  {
    var allowed := AllowedOrigins(raw);
    AllowedOriginsEntries(raw);
    if allowed != [] {
      assert allowed[0] in allowed;
    }
  }
}
