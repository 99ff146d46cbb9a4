/** The request handler of the portfolio service
    (infrastructure/functions/portfolio/handler.js): authorisation, routing,
    the responses, and the item table that the four item operations read
    and write. The DynamoDB table is a map from id to record held by
    `ItemService`; the S3 bucket is seen only through the deletions the
    service asks for and the upload URLs it signs. */
module Service {
  import opened Js
  import opened Wrappers
  import opened Cors
  import opened Items

  // ---------------------------------------------------------------------
  // Requests

  /** What the handler reads of an API Gateway event. A missing string
      (method, resource, path, path id, header) is "". `parsed` is what
      `JSON.parse` makes of a text body, `None` when it throws; JSON itself
      is not modelled. */
  datatype Event = Event(
    httpMethod: string, resource: string, path: string,
    headers: map<string, string>, pathId: string,
    body: Value, parsed: Option<Value>)

  /** `event.headers?.[name] || ''` */
  function Header(headers: map<string, string>, name: string): string {
    if name in headers then headers[name] else ""
  }

  /** `event.headers?.origin || event.headers?.Origin`, "" when neither is
      there. */
  function RequestOrigin(headers: map<string, string>): string {
    var lower := Header(headers, "origin");
    if lower != "" then lower else Header(headers, "Origin")
  }

  /** The admin key a request presents: the `x-admin-key` header, else
      `X-Admin-Key`, trimmed. */
  function PresentedKey(headers: map<string, string>): string {
    var lower := Header(headers, "x-admin-key");
    Trim(if lower != "" then lower else Header(headers, "X-Admin-Key"))
  }

  /** requireAdmin lets a request through: no key is configured, or the
      request presents exactly the configured one. */
  predicate Authorized(adminKey: string, headers: map<string, string>) {
    adminKey == "" || PresentedKey(headers) == adminKey
  }

  /** Without a configured key every request is let through; a key
      presented with whitespace around it is accepted; and a configured
      key that itself starts or ends with whitespace can never be
      presented, so it locks every request out. */
  lemma AuthorizedSpec(adminKey: string, headers: map<string, string>, pre: string, post: string)
    ensures adminKey == "" ==> Authorized(adminKey, headers)
    ensures AllSpace(pre) && AllSpace(post) && Trimmed(adminKey) &&
            Header(headers, "x-admin-key") == pre + adminKey + post ==>
              Authorized(adminKey, headers)
    ensures adminKey != "" && !Trimmed(adminKey) ==> !Authorized(adminKey, headers)
  {
    if AllSpace(pre) && AllSpace(post) && Trimmed(adminKey) &&
       Header(headers, "x-admin-key") == pre + adminKey + post {
      TrimPadded(pre, adminKey, post);
      if adminKey == "" {
        assert Authorized(adminKey, headers);
      } else {
        assert Header(headers, "x-admin-key") != "" by {
          assert |pre + adminKey + post| >= |adminKey|;
        }
      }
    }
  }

  /** The lower-case header wins; the capitalised one is read only when the
      lower-case one is missing or empty. */
  lemma PresentedKeyPrefersLowerCase(headers: map<string, string>)
    ensures Header(headers, "x-admin-key") != "" ==>
              PresentedKey(headers) == Trim(headers["x-admin-key"])
    ensures Header(headers, "x-admin-key") == "" ==>
              PresentedKey(headers) == Trim(Header(headers, "X-Admin-Key"))
  {
  }

  /** parseBody(event): an absent or falsy body is `{}`, a text body is
      parsed (400 when that fails), anything else is taken as it is. */
  function ParseBody(e: Event): (r: Result<Value, Failure>)
    ensures !Truthy(e.body) ==> r == Ok(Obj(map[]))
    ensures Truthy(e.body) && !e.body.Str? ==> r == Ok(e.body)
    ensures Truthy(e.body) && e.body.Str? ==>
              r == (if e.parsed.Some? then Ok(e.parsed.value) else Err(InvalidJson))
  {
    if !Truthy(e.body) then Ok(Obj(map[]))
    else if e.body.Str? then
      (if e.parsed.Some? then Ok(e.parsed.value) else Err(InvalidJson))
    else Ok(e.body)
  }

  const InvalidJson := HttpError(400, "Invalid JSON body")

  // ---------------------------------------------------------------------
  // Routes

  /** What the handler does with a request. */
  datatype Route =
    | Preflight | ListRoute | CreateRoute | UpdateRoute | DeleteRoute | UploadRoute | NoRoute

  /** `event.resource || event.path` */
  function RoutePath(e: Event): string {
    if e.resource != "" then e.resource else e.path
  }

  function RouteOf(e: Event): Route {
    var p := RoutePath(e);
    if e.httpMethod == "OPTIONS" then Preflight
    else if e.httpMethod == "GET" && p == "/items" then ListRoute
    else if e.httpMethod == "POST" && p == "/items" then CreateRoute
    else if e.httpMethod == "PUT" && p == "/items/{id}" then UpdateRoute
    else if e.httpMethod == "DELETE" && p == "/items/{id}" then DeleteRoute
    else if e.httpMethod == "POST" && p == "/items/{id}/upload-url" then UploadRoute
    else NoRoute
  }

  /** The routes behind requireAdmin: every one that can write. */
  predicate AdminOnly(r: Route) {
    r.CreateRoute? || r.UpdateRoute? || r.DeleteRoute? || r.UploadRoute?
  }

  /** A preflight is recognised by its method alone, whatever the path;
      every other route needs one of the three resource paths; and only
      the reads and the preflight are open to everyone. */
  lemma RouteOfSpec(e: Event)
    ensures RouteOf(e) == Preflight <==> e.httpMethod == "OPTIONS"
    ensures RouteOf(e) != Preflight && RouteOf(e) != NoRoute ==>
              RoutePath(e) in {"/items", "/items/{id}", "/items/{id}/upload-url"}
    ensures !AdminOnly(RouteOf(e)) ==>
              RouteOf(e) == Preflight || RouteOf(e) == NoRoute ||
              (RouteOf(e) == ListRoute && e.httpMethod == "GET")
    ensures e.httpMethod !in {"OPTIONS", "GET", "POST", "PUT", "DELETE"} ==> RouteOf(e) == NoRoute
  {
  }

  // ---------------------------------------------------------------------
  // Responses

  /** The JSON object a response carries (serialisation is not modelled). */
  datatype Payload =
    | Ack                          // { ok: true }
    | ItemList(items: seq<Record>) // { items }
    | OneItem(item: Record)        // { item }
    | Deleted                      // { success: true }
    | Ticket(ticket: UploadTicket) // { uploadUrl, objectKey, publicUrl }
    | Message(message: string)     // { message }

  datatype Response = Response(statusCode: nat, headers: map<string, string>, body: Payload)

  const AllowOrigin := "Access-Control-Allow-Origin"

  /** The headers of every response. */
  function ResponseHeaders(origin: Option<string>): map<string, string> {
    map["Content-Type" := "application/json",
        AllowOrigin := AllowOriginHeader(origin),
        "Access-Control-Allow-Credentials" := "false",
        "Access-Control-Allow-Headers" := "Content-Type,X-Admin-Key",
        "Access-Control-Allow-Methods" := "GET,POST,PUT,DELETE,OPTIONS"]
  }

  /** buildResponse(statusCode, body, origin) */
  function Respond(status: nat, body: Payload, origin: Option<string>): Response {
    Response(status, ResponseHeaders(origin), body)
  }

  /** The catch block: an `HttpError` answers with its status (500 when it
      has none) and message; any other exception with 500. */
  function Fail(f: Failure, origin: Option<string>): (r: Response)
    ensures r.headers == ResponseHeaders(origin)
    ensures r.statusCode != 0 && r.body.Message?
    ensures f.Crash? ==> r.statusCode == 500 && r.body.message == "Internal server error"
    ensures f.HttpError? && f.status != 0 ==> r.statusCode == f.status && r.body.message == f.message
  {
    match f
    case HttpError(status, message) => Respond(if status == 0 then 500 else status, Message(message), origin)
    case Crash => Respond(500, Message("Internal server error"), origin)
  }

  const Unauthorized := Message("Unauthorized")
  const NotFound := Message("Not found")

  /** Every response names an origin the service was configured to allow,
      or '*'; without a wildcard in the list it echoes a listed request
      origin and never an unlisted one. */
  lemma ResponseOriginAllowed(raw: string, e: Event, status: nat, body: Payload)
    ensures var origin := PickOrigin(AllowedOrigins(raw), RequestOrigin(e.headers));
            var h := Respond(status, body, origin).headers;
            AllowOrigin in h &&
            (h[AllowOrigin] == "*" || h[AllowOrigin] in AllowedOrigins(raw)) &&
            ("*" !in AllowedOrigins(raw) && RequestOrigin(e.headers) != "" && RequestOrigin(e.headers) != "*" ==>
               (h[AllowOrigin] == RequestOrigin(e.headers) <==> RequestOrigin(e.headers) in AllowedOrigins(raw)))
  {
    HeaderOriginAllowed(raw, RequestOrigin(e.headers));
  }

  // ---------------------------------------------------------------------
  // The table

  /** A row as the service writes it: filed under its own id, and with an
      image key that is absent, null or text without a leading '/'. */
  predicate StoredRow(id: string, rec: Record) {
    rec.id == Str(id) && (rec.imageKey == Undefined || StoredImageKey(rec.imageKey))
  }

  /** mapItem never throws on a row the service wrote. */
  lemma StoredRowMaps(id: string, rec: Record, mediaBase: string)
    requires StoredRow(id, rec)
    ensures MapItem(rec, mediaBase).Some?
  {
    MapItemSpec(rec, mediaBase);
  }

  /** The row an edit of `id` starts from as DynamoDB's update sees it: the
      stored row, or, since an update of a missing key creates the item,
      a row holding only the key. */
  function Existing(rows: map<string, Record>, id: string): Record {
    if id in rows then rows[id] else Blank.(id := Str(id))
  }

  /** The row after an edit: the supplied fields overwritten and
      `updatedAt` set to `now`. */
  function Edited(rec: Record, ups: seq<(Attr, Value)>, now: string): Record {
    SetField(Overlay(rec, ups), UpdatedAt, Str(now))
  }

  /** An edit sets exactly the supplied fields to their sanitised values
      and `updatedAt` to `now`; the id, the creation time and every field
      the body leaves out stay as they were; and a row the service wrote
      stays one. */
  lemma EditedSpec(id: string, rec: Record, payload: Value, now: string)
    requires UpdatesOf(payload).Ok?
    ensures var r := Edited(rec, UpdatesOf(payload).value, now);
            r.updatedAt == Str(now) && r.id == rec.id && r.createdAt == rec.createdAt &&
            r.imageUrl == rec.imageUrl &&
            (forall a :: a in UpdatableFields && Supplied(payload, a) != Undefined ==>
               Field(r, a) == FieldValue(a, Supplied(payload, a))) &&
            (forall a :: a in UpdatableFields && Supplied(payload, a) == Undefined ==>
               Field(r, a) == Field(rec, a)) &&
            (StoredRow(id, rec) ==> StoredRow(id, r))
  {
    UpdateKeys(payload);
    EditedBy(id, rec, payload, UpdatesOf(payload).value, now);
  }

  /** EditedSpec for any updates with the properties UpdateKeys gives. */
  lemma EditedBy(id: string, rec: Record, payload: Value, ups: seq<(Attr, Value)>, now: string)
    requires Distinct(Keys(ups))
    requires forall a :: a in Keys(ups) ==> a in UpdatableFields && Supplied(payload, a) != Undefined
    requires forall a :: a in UpdatableFields && Supplied(payload, a) != Undefined ==> a in Keys(ups)
    requires forall i :: 0 <= i < |ups| ==> ups[i].1 == FieldValue(ups[i].0, Supplied(payload, ups[i].0))
    ensures var r := Edited(rec, ups, now);
            r.updatedAt == Str(now) && r.id == rec.id && r.createdAt == rec.createdAt &&
            r.imageUrl == rec.imageUrl &&
            (forall a :: a in UpdatableFields && Supplied(payload, a) != Undefined ==>
               Field(r, a) == FieldValue(a, Supplied(payload, a))) &&
            (forall a :: a in UpdatableFields && Supplied(payload, a) == Undefined ==>
               Field(r, a) == Field(rec, a)) &&
            (StoredRow(id, rec) ==> StoredRow(id, r))
  {
    EditedIdentity(rec, ups, now);
    EditedSupplied(rec, payload, ups, now);
    if StoredRow(id, rec) {
      ImageKeyValue(Supplied(payload, ImageKey));
      EditedStored(id, rec, ups, now);
    }
  }

  lemma EditedIdentity(rec: Record, ups: seq<(Attr, Value)>, now: string)
    requires Distinct(Keys(ups))
    requires forall a :: a in Keys(ups) ==> a in UpdatableFields
    ensures var r := Edited(rec, ups, now);
            r.updatedAt == Str(now) && r.id == rec.id && r.createdAt == rec.createdAt &&
            r.imageUrl == rec.imageUrl
  {
    EditedFields(rec, ups, now);
    assert Id !in Keys(ups) && CreatedAt !in Keys(ups) && ImageUrl !in Keys(ups);
  }

  lemma EditedSupplied(rec: Record, payload: Value, ups: seq<(Attr, Value)>, now: string)
    requires Distinct(Keys(ups))
    requires forall a :: a in Keys(ups) ==> a in UpdatableFields && Supplied(payload, a) != Undefined
    requires forall a :: a in UpdatableFields && Supplied(payload, a) != Undefined ==> a in Keys(ups)
    requires forall i :: 0 <= i < |ups| ==> ups[i].1 == FieldValue(ups[i].0, Supplied(payload, ups[i].0))
    ensures var r := Edited(rec, ups, now);
            (forall a :: a in UpdatableFields && Supplied(payload, a) != Undefined ==>
               Field(r, a) == FieldValue(a, Supplied(payload, a))) &&
            (forall a :: a in UpdatableFields && Supplied(payload, a) == Undefined ==>
               Field(r, a) == Field(rec, a))
  {
    EditedFields(rec, ups, now);
    var r := Edited(rec, ups, now);
    forall a | a in UpdatableFields && Supplied(payload, a) != Undefined
      ensures Field(r, a) == FieldValue(a, Supplied(payload, a))
    {
      var i :| 0 <= i < |ups| && Keys(ups)[i] == a;
    }
  }

  /** Updates a row the service wrote can take and stay one: distinct
      updatable fields, and an image key only as the service stores it. */
  predicate StorableUpdates(ups: seq<(Attr, Value)>) {
    Distinct(Keys(ups)) &&
    (forall a :: a in Keys(ups) ==> a in UpdatableFields) &&
    (forall i :: 0 <= i < |ups| && ups[i].0 == ImageKey ==> StoredImageKey(ups[i].1))
  }

  lemma EditedStored(id: string, rec: Record, ups: seq<(Attr, Value)>, now: string)
    requires StorableUpdates(ups) && StoredRow(id, rec)
    ensures StoredRow(id, Edited(rec, ups, now))
  {
    EditedIdentity(rec, ups, now);
    EditedFields(rec, ups, now);
    if ImageKey in Keys(ups) {
      var i :| 0 <= i < |ups| && Keys(ups)[i] == ImageKey;
    }
  }

  /** The updates of an edit are storable. */
  lemma UpdatesStorable(payload: Value)
    requires UpdatesOf(payload).Ok?
    ensures StorableUpdates(UpdatesOf(payload).value)
  {
    UpdateKeys(payload);
    ImageKeyValue(Supplied(payload, ImageKey));
  }

  /** What an edit needs of its updates: distinct updatable fields, each
      with its sanitised value, and every supplied field among them. */
  lemma UpdateKeys(payload: Value)
    requires UpdatesOf(payload).Ok?
    ensures var ups := UpdatesOf(payload).value;
            Distinct(Keys(ups)) &&
            (forall a :: a in Keys(ups) ==> a in UpdatableFields && Supplied(payload, a) != Undefined) &&
            (forall a :: a in UpdatableFields && Supplied(payload, a) != Undefined ==> a in Keys(ups)) &&
            (forall i :: 0 <= i < |ups| ==> ups[i].1 == FieldValue(ups[i].0, Supplied(payload, ups[i].0)))
  {
    UpdatesOfSpec(payload);
  }

  /** `Edited` sets the fields of the updates and `updatedAt`, and no
      other. */
  lemma EditedFields(rec: Record, ups: seq<(Attr, Value)>, now: string)
    requires Distinct(Keys(ups))
    ensures var r := Edited(rec, ups, now);
            r.updatedAt == Str(now) &&
            (forall i :: 0 <= i < |ups| && ups[i].0 != UpdatedAt ==> Field(r, ups[i].0) == ups[i].1) &&
            (forall a :: a != UpdatedAt && a !in Keys(ups) ==> Field(r, a) == Field(rec, a))
  {
    OverlaySpec(rec, ups);
  }

  /** The fresh input of one request: the new item's id (a UUID), the
      time as an ISO string and in milliseconds, four random bytes, and
      the S3 URL signer. */
  datatype Env = Env(newId: string, now: string, millis: nat, random: seq<byte>, sign: SignParams -> string)

  /** The upload answer for a parsed body: reading `filename` of a null
      body throws before the id is looked at. */
  function UploadOf(media: Media, id: string, payload: Value, env: Env): (r: Result<UploadTicket, Failure>)
    requires |env.random| == 4
    ensures Nullish(payload) ==> r == Err(Crash)
    ensures !Nullish(payload) ==>
              r == CreateUploadUrl(media, id, Get(payload, "filename"), Get(payload, "contentType"),
                                   env.millis, env.random, env.sign)
  {
    if Nullish(payload) then Err(Crash)
    else CreateUploadUrl(media, id, Get(payload, "filename"), Get(payload, "contentType"),
                         env.millis, env.random, env.sign)
  }

  /** The items of a listing: `order` visits each stored id once, and the
      i-th item is the mapped row of the i-th id. */
  predicate Listing(items: seq<Record>, order: seq<string>, rows: map<string, Record>, mediaBase: string) {
    |items| == |order| &&
    (forall i, j :: 0 <= i < j < |order| ==> order[i] != order[j]) &&
    (forall id :: id in rows ==> id in order) &&
    (forall i :: 0 <= i < |order| ==> order[i] in rows && Some(items[i]) == MapItem(rows[order[i]], mediaBase))
  }

  /** The item service: its configuration, the table, and the image keys
      it has asked S3 to delete. */
  class ItemService {
    /** MEDIA_PREFIX, MEDIA_BASE_URL, BUCKET_NAME and AWS_REGION */
    const media: Media
    /** ADMIN_API_KEY */
    const adminKey: string
    /** The allow-list read from ALLOWED_ORIGIN */
    const allowed: seq<string>
    /** The DynamoDB table, by id */
    var rows: map<string, Record>
    /** The keys passed to `s3.deleteObject`, in order */
    var imageDeletions: seq<Value>

    predicate Valid()
      reads this
    {
      forall id :: id in rows ==> StoredRow(id, rows[id])
    }

    constructor(media: Media, adminKey: string, allowedOrigin: string)
      ensures Valid()
      ensures this.media == media && this.adminKey == adminKey
      ensures allowed == AllowedOrigins(allowedOrigin)
      ensures rows == map[] && imageDeletions == []
    {
      this.media := media;
      this.adminKey := adminKey;
      allowed := AllowedOrigins(allowedOrigin);
      rows := map[];
      imageDeletions := [];
    }

    /** listItems() in scan order: every row once, mapped. Sorting by
        creation time is not modelled. */
    method ListItems() returns (items: seq<Record>, order: seq<string>)
      requires Valid()
      ensures Listing(items, order, rows, media.baseUrl)
    {
      var left := rows.Keys;
      items, order := [], [];
      while left != {}
        invariant left <= rows.Keys
        invariant |items| == |order|
        invariant forall i, j :: 0 <= i < j < |order| ==> order[i] != order[j]
        invariant forall i :: 0 <= i < |order| ==>
                    order[i] in rows && order[i] !in left && Some(items[i]) == MapItem(rows[order[i]], media.baseUrl)
        invariant forall id :: id in rows && id !in left ==> id in order
        decreases |left|
      {
        var id :| id in left;
        StoredRowMaps(id, rows[id], media.baseUrl);
        items := items + [MapItem(rows[id], media.baseUrl).value];
        order := order + [id];
        left := left - {id};
      }
    }

    /** createItem(payload) with the fresh id `id` at time `now`: a refused
        body writes nothing; otherwise the new row is put under its id and
        returned mapped. */
    method CreateItem(payload: Value, id: string, now: string) returns (r: Result<Record, Failure>)
      requires Valid()
      modifies this
      ensures Valid() && imageDeletions == old(imageDeletions)
      ensures NewItem(payload, id, now).Err? ==>
                r == Err(NewItem(payload, id, now).error) && rows == old(rows)
      ensures NewItem(payload, id, now).Ok? ==>
                rows == old(rows)[id := NewItem(payload, id, now).value] &&
                r.Ok? && Some(r.value) == MapItem(NewItem(payload, id, now).value, media.baseUrl)
    {
      var made := NewItem(payload, id, now);
      if made.Err? {
        return Err(made.error);
      }
      ItemOfSpec(payload, id, now);
      rows := rows[id := made.value];
      StoredRowMaps(id, made.value, media.baseUrl);
      r := Ok(MapItem(made.value, media.baseUrl).value);
    }

    /** updateItem(id, payload) as written: the store call upserts, so a
        missing id gets a new row holding only the supplied fields, and
        the 404 that follows the call is never reached. */
    method UpsertItem(id: string, payload: Value, now: string) returns (r: Result<Record, Failure>)
      requires Valid()
      modifies this
      ensures Valid() && imageDeletions == old(imageDeletions)
      ensures id == "" ==> r == Err(MissingId) && rows == old(rows)
      ensures id != "" && UpdatesOf(payload).Err? ==> r == Err(UpdatesOf(payload).error) && rows == old(rows)
      ensures id != "" && UpdatesOf(payload).Ok? ==>
                var rec := Edited(Existing(old(rows), id), UpdatesOf(payload).value, now);
                rows == old(rows)[id := rec] && r.Ok? && Some(r.value) == MapItem(rec, media.baseUrl)
    {
      if id == "" {
        return Err(MissingId);
      }
      var ups := UpdatesOf(payload);
      if ups.Err? {
        return Err(ups.error);
      }
      UpdatesStorable(payload);
      var rec := Store(id, ups.value, now);
      r := Ok(MapItem(rec, media.baseUrl).value);
    }

    /** updateItem(id, payload) as intended: an id with no row is answered
        with 404 'Item not found' and nothing is written; otherwise the
        stored row is edited and returned mapped. */
    method UpdateItem(id: string, payload: Value, now: string) returns (r: Result<Record, Failure>)
      requires Valid()
      modifies this
      ensures Valid() && imageDeletions == old(imageDeletions)
      ensures id == "" ==> r == Err(MissingId) && rows == old(rows)
      ensures id != "" && UpdatesOf(payload).Err? ==> r == Err(UpdatesOf(payload).error) && rows == old(rows)
      ensures id != "" && UpdatesOf(payload).Ok? && id !in old(rows) ==>
                r == Err(ItemNotFound) && rows == old(rows)
      ensures id != "" && UpdatesOf(payload).Ok? && id in old(rows) ==>
                var rec := Edited(old(rows)[id], UpdatesOf(payload).value, now);
                rows == old(rows)[id := rec] && r.Ok? && Some(r.value) == MapItem(rec, media.baseUrl)
    {
      if id == "" {
        return Err(MissingId);
      }
      var ups := UpdatesOf(payload);
      if ups.Err? {
        return Err(ups.error);
      }
      if id !in rows {
        return Err(ItemNotFound);
      }
      UpdatesStorable(payload);
      var rec := Store(id, ups.value, now);
      r := Ok(MapItem(rec, media.baseUrl).value);
    }

    /** The `ddb.update` call: builds the SET expression and its maps, and
        stores what carrying it out on the existing row gives. */
    method Store(id: string, ups: seq<(Attr, Value)>, now: string) returns (rec: Record)
      requires Valid() && StorableUpdates(ups)
      modifies this
      ensures Valid() && imageDeletions == old(imageDeletions)
      ensures rec == Edited(Existing(old(rows), id), ups, now)
      ensures rows == old(rows)[id := rec]
      ensures MapItem(rec, media.baseUrl).Some?
    {
      var expr, names, values := BuildUpdateExpression(ups, now);
      var before := Existing(rows, id);
      UpdateExpressionMeaning(before, ups, now);
      rec := ExecuteSet(before, names, values, |ups|).value;
      EditedStored(id, before, ups, now);
      rows := rows[id := rec];
      StoredRowMaps(id, rec, media.baseUrl);
    }

    /** deleteItem(id): the row is removed and its image, if it has one,
        is handed to S3 for deletion; a failing deletion is only logged,
        so the operation succeeds either way. */
    method DeleteItem(id: string) returns (r: Result<(), Failure>)
      requires Valid()
      modifies this
      ensures Valid()
      ensures id == "" ==> r == Err(MissingId) && rows == old(rows) && imageDeletions == old(imageDeletions)
      ensures id != "" && id !in old(rows) ==> r == Err(ItemNotFound) && rows == old(rows) && imageDeletions == old(imageDeletions)
      ensures id != "" && id in old(rows) ==>
                r == Ok(()) && rows == old(rows) - {id} &&
                var key := old(rows)[id].imageKey;
                imageDeletions == old(imageDeletions) + (if Truthy(key) then [key] else [])
    {
      if id == "" {
        return Err(MissingId);
      }
      if id !in rows {
        return Err(ItemNotFound);
      }
      var existing := rows[id];
      rows := rows - {id};
      if Truthy(existing.imageKey) {
        imageDeletions := imageDeletions + [existing.imageKey];
      }
      r := Ok(());
    }

    /** The handler: answers a preflight, checks the admin key on every
        route that can write, dispatches, and turns a thrown error into
        its response. Every response carries the CORS headers. */
    method Handle(e: Event, env: Env) returns (resp: Response)
      requires Valid() && |env.random| == 4
      modifies this
      ensures Valid()
      ensures resp.headers == ResponseHeaders(PickOrigin(allowed, RequestOrigin(e.headers)))
      ensures !(RouteOf(e).CreateRoute? || RouteOf(e).UpdateRoute? || RouteOf(e).DeleteRoute?) ==> rows == old(rows) && imageDeletions == old(imageDeletions)
      ensures !Authorized(adminKey, e.headers) && AdminOnly(RouteOf(e)) ==>
                resp.statusCode == 401 && resp.body == Unauthorized && rows == old(rows) && imageDeletions == old(imageDeletions)
      ensures RouteOf(e) == Preflight ==> resp.statusCode == 200 && resp.body == Ack
      ensures RouteOf(e) == NoRoute ==> resp.statusCode == 404 && resp.body == NotFound
      ensures RouteOf(e) == ListRoute ==>
                resp.statusCode == 200 && resp.body.ItemList? &&
                exists order :: Listing(resp.body.items, order, rows, media.baseUrl)
      ensures Authorized(adminKey, e.headers) && AdminOnly(RouteOf(e)) && RouteOf(e) != DeleteRoute &&
              ParseBody(e).Err? ==>
                resp == Fail(ParseBody(e).error, PickOrigin(allowed, RequestOrigin(e.headers))) &&
                rows == old(rows) && imageDeletions == old(imageDeletions)
      ensures Authorized(adminKey, e.headers) && AdminOnly(RouteOf(e)) && RouteOf(e) != DeleteRoute &&
              ParseBody(e).Ok? ==>
                Served(RouteOf(e), e.pathId, ParseBody(e).value, env, PickOrigin(allowed, RequestOrigin(e.headers)),
                       resp, old(rows), old(imageDeletions))
      ensures Authorized(adminKey, e.headers) && RouteOf(e) == DeleteRoute ==>
                Removed(e.pathId, PickOrigin(allowed, RequestOrigin(e.headers)), resp, old(rows), old(imageDeletions))
    {
      var origin := PickOrigin(allowed, RequestOrigin(e.headers));
      var route := RouteOf(e);
      if route == Preflight {
        return Respond(200, Ack, origin);
      }
      if route == ListRoute {
        var items, order := ListItems();
        return Respond(200, ItemList(items), origin);
      }
      if route == NoRoute {
        return Respond(404, NotFound, origin);
      }
      if !Authorized(adminKey, e.headers) {
        return Respond(401, Unauthorized, origin);
      }
      resp := Serve(route, e, env, origin);
    }

    /** The part of the handler after requireAdmin has let a request to a
        writing route through. */
    method Serve(route: Route, e: Event, env: Env, origin: Option<string>) returns (resp: Response)
      requires Valid() && |env.random| == 4
      requires AdminOnly(route)
      modifies this
      ensures Valid()
      ensures resp.headers == ResponseHeaders(origin)
      ensures route == UploadRoute ==> rows == old(rows) && imageDeletions == old(imageDeletions)
      ensures route != DeleteRoute && ParseBody(e).Err? ==>
                resp == Fail(ParseBody(e).error, origin) &&
                rows == old(rows) && imageDeletions == old(imageDeletions)
      ensures route != DeleteRoute && ParseBody(e).Ok? ==>
                Served(route, e.pathId, ParseBody(e).value, env, origin, resp, old(rows), old(imageDeletions))
      ensures route == DeleteRoute ==> Removed(e.pathId, origin, resp, old(rows), old(imageDeletions))
    {
      if route == DeleteRoute {
        resp := ServeDelete(e.pathId, origin);
        return;
      }
      var payload := ParseBody(e);
      if payload.Err? {
        return Fail(payload.error, origin);
      }
      resp := ServeBody(route, e.pathId, payload.value, env, origin);
    }

    /** DELETE /items/{id} after requireAdmin. */
    method ServeDelete(id: string, origin: Option<string>) returns (resp: Response)
      requires Valid()
      modifies this
      ensures Valid()
      ensures resp.headers == ResponseHeaders(origin)
      ensures Removed(id, origin, resp, old(rows), old(imageDeletions))
    {
      var done := DeleteItem(id);
      resp := if done.Ok? then Respond(200, Deleted, origin) else Fail(done.error, origin);
    }

    /** The create, update and upload routes once the body is parsed. */
    method ServeBody(route: Route, id: string, payload: Value, env: Env, origin: Option<string>)
      returns (resp: Response)
      requires Valid() && |env.random| == 4
      requires route.CreateRoute? || route.UpdateRoute? || route.UploadRoute?
      modifies this
      ensures Valid()
      ensures resp.headers == ResponseHeaders(origin)
      ensures route == UploadRoute ==> rows == old(rows) && imageDeletions == old(imageDeletions)
      ensures Served(route, id, payload, env, origin, resp, old(rows), old(imageDeletions))
    {
      if route == CreateRoute {
        resp := ServeCreate(payload, env, origin);
      } else if route == UpdateRoute {
        resp := ServeUpdate(id, payload, env, origin);
      } else {
        var up := UploadOf(media, id, payload, env);
        if up.Ok? {
          resp := Respond(200, Ticket(up.value), origin);
        } else {
          resp := Fail(up.error, origin);
        }
      }
    }

    /** POST /items once the body is parsed. */
    method ServeCreate(payload: Value, env: Env, origin: Option<string>) returns (resp: Response)
      requires Valid()
      modifies this
      ensures Valid()
      ensures resp.headers == ResponseHeaders(origin)
      ensures imageDeletions == old(imageDeletions)
      ensures CreateServed(payload, env, origin, resp, old(rows))
    {
      var made := CreateItem(payload, env.newId, env.now);
      resp := if made.Ok? then Respond(201, OneItem(made.value), origin) else Fail(made.error, origin);
    }

    /** PUT /items/{id} once the body is parsed: updateItem as written,
        which upserts. */
    method ServeUpdate(id: string, payload: Value, env: Env, origin: Option<string>) returns (resp: Response)
      requires Valid()
      modifies this
      ensures Valid()
      ensures resp.headers == ResponseHeaders(origin)
      ensures imageDeletions == old(imageDeletions)
      ensures UpdateServed(id, payload, env, origin, resp, old(rows))
    {
      var edited := UpsertItem(id, payload, env.now);
      resp := if edited.Ok? then Respond(200, OneItem(edited.value), origin) else Fail(edited.error, origin);
    }

    /** What a DELETE answers and leaves behind, against the state before
        it. */
    predicate Removed(id: string, origin: Option<string>, resp: Response,
                      before: map<string, Record>, deletionsBefore: seq<Value>)
      reads this
    {
      (id == "" ==> resp == Fail(MissingId, origin) && rows == before && imageDeletions == deletionsBefore) &&
      (id != "" && id !in before ==>
         resp == Fail(ItemNotFound, origin) && rows == before && imageDeletions == deletionsBefore) &&
      (id != "" && id in before ==>
         resp == Respond(200, Deleted, origin) && rows == before - {id} &&
         var key := before[id].imageKey;
         imageDeletions == deletionsBefore + (if Truthy(key) then [key] else []))
    }

    /** What a create, update or upload with the parsed body `payload`
        answers and leaves behind, against the state before it. */
    predicate Served(route: Route, id: string, payload: Value, env: Env, origin: Option<string>,
                     resp: Response, before: map<string, Record>, deletionsBefore: seq<Value>)
      reads this
    {
      imageDeletions == deletionsBefore &&
      (route == CreateRoute ==> CreateServed(payload, env, origin, resp, before)) &&
      (route == UpdateRoute ==> UpdateServed(id, payload, env, origin, resp, before)) &&
      (route == UploadRoute && |env.random| == 4 ==>
         var up := UploadOf(media, id, payload, env);
         rows == before &&
         (up.Err? ==> resp == Fail(up.error, origin)) &&
         (up.Ok? ==> resp == Respond(200, Ticket(up.value), origin)))
    }

    /** A create stores the new item under the fresh id and answers 201
        with it mapped, or writes nothing and answers the failure. */
    predicate CreateServed(payload: Value, env: Env, origin: Option<string>,
                           resp: Response, before: map<string, Record>)
      reads this
    {
      var made := NewItem(payload, env.newId, env.now);
      (made.Err? ==> resp == Fail(made.error, origin) && rows == before) &&
      (made.Ok? ==> rows == before[env.newId := made.value] &&
                    resp.statusCode == 201 && resp.body.OneItem? &&
                    Some(resp.body.item) == MapItem(made.value, media.baseUrl))
    }

    /** An update writes the edited row, created from the id alone when
        none was stored (the upsert of the source), and answers 200 with it
        mapped; or it writes nothing and answers the failure. */
    predicate UpdateServed(id: string, payload: Value, env: Env, origin: Option<string>,
                           resp: Response, before: map<string, Record>)
      reads this
    {
      var ups := UpdatesOf(payload);
      (id == "" ==> resp == Fail(MissingId, origin) && rows == before) &&
      (id != "" && ups.Err? ==> resp == Fail(ups.error, origin) && rows == before) &&
      (id != "" && ups.Ok? ==>
         var rec := Edited(Existing(before, id), ups.value, env.now);
         rows == before[id := rec] &&
         resp.statusCode == 200 && resp.body.OneItem? &&
         Some(resp.body.item) == MapItem(rec, media.baseUrl))
    }
  }

  /** The upsert stores a row for an id that had none, and that row has
      no creation time: a PUT to an unknown id answers 200 instead of
      'Item not found'. */
  lemma UpsertOfMissingId(rows: map<string, Record>, id: string, payload: Value, now: string)
    requires id !in rows && UpdatesOf(payload).Ok?
    ensures var rec := Edited(Existing(rows, id), UpdatesOf(payload).value, now);
            rec.id == Str(id) && rec.createdAt == Undefined && rec.updatedAt == Str(now)
  {
    EditedSpec(id, Existing(rows, id), payload, now);
  }
}
