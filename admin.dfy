/** The admin console (src/admin.js): the form's validation and the body
    it sends, the tag field, the request headers, the image address it
    shows, and the state the console keeps across a session — which item
    is being edited, the list it shows and whether the form is enabled.
    The network and the DOM are parameters of the methods. */
module AdminConsole {
  import opened Js
  import opened Wrappers
  import opened Items
  import Sanitize
  import Service

  /** `(raw || '').trim().replace(/\/+$/, '')`: how PORTFOLIO_API_BASE and
      PORTFOLIO_MEDIA_BASE are read. */
  function BaseUrl(raw: string): string {
    StripTrailing(Trim(raw), '/')
  }

  // ---------------------------------------------------------------------
  // Tags

  /** normaliseTags(value): the comma-separated entries, trimmed, blanks
      dropped. */
  function NormaliseTags(value: string): seq<string> {
    if value == "" then [] else NonBlank(Split(value, ','))
  }

  /** A tag as the field can carry it: non-blank, no surrounding
      whitespace, no ','. */
  predicate FieldTag(t: string) {
    t != "" && Trimmed(t) && ',' !in t
  }

  /** Every tag read from the field is non-blank, trimmed and free of ','. */
  lemma NormaliseTagsEntries(value: string)
    ensures forall i :: 0 <= i < |NormaliseTags(value)| ==> FieldTag(NormaliseTags(value)[i])
  {
    if value != "" {
      var parts := Split(value, ',');
      assert forall i :: 0 <= i < |parts| ==> parts[i] in parts;
      NonBlankEntries(parts, ',');
    }
  }

  /** The field setEditing fills in (`tags.join(', ')`) reads back as the
      same tags. */
  lemma NormaliseTagsRoundTrip(tags: seq<string>)
    requires forall i :: 0 <= i < |tags| ==> FieldTag(tags[i])
    ensures NormaliseTags(Join(tags, ", ")) == tags
  {
    if tags != [] {
      NormaliseJoined("", tags);
      assert "" + Join(tags, ", ") == Join(tags, ", ");
      assert Join(tags, ", ") != "" by {
        JoinLength(tags);
      }
    }
  }

  /** Reading the field twice changes nothing. */
  lemma NormaliseTagsIdempotent(value: string)
    ensures NormaliseTags(Join(NormaliseTags(value), ", ")) == NormaliseTags(value)
  {
    NormaliseTagsEntries(value);
    NormaliseTagsRoundTrip(NormaliseTags(value));
  }

  lemma JoinLength(tags: seq<string>)
    requires tags != [] && tags[0] != ""
    ensures Join(tags, ", ") != ""
  {
    if |tags| > 1 {
      assert Join(tags, ", ") == tags[0] + ", " + Join(tags[1..], ", ");
    }
  }

  /** The induction behind the round trip: the pieces after the first
      carry the space of the ", " before them, which trimming removes. */
  lemma {:induction false} NormaliseJoined(pre: string, tags: seq<string>)
    requires AllSpace(pre) && ',' !in pre
    requires tags != []
    requires forall i :: 0 <= i < |tags| ==> FieldTag(tags[i])
    ensures NonBlank(Split(pre + Join(tags, ", "), ',')) == tags
    decreases |tags|
  {
    var t := tags[0];
    assert FieldTag(t);
    PaddedTag(pre, t);
    if |tags| == 1 {
      assert pre + Join(tags, ", ") == pre + t;
      SplitNoSeparator(pre + t, ',');
      NonBlankCons(pre + t, []);
    } else {
      var rest := Join(tags[1..], ", ");
      JoinCons(pre, tags);
      SplitAfterPiece(pre + t, " " + rest, ',');
      assert forall i :: 0 <= i < |tags[1..]| ==> FieldTag(tags[1..][i]);
      assert AllSpace(" ");
      NormaliseJoined(" ", tags[1..]);
      NonBlankCons(pre + t, Split(" " + rest, ','));
      assert tags == [t] + tags[1..];
    }
  }

  /** A tag after blanks reads back as the tag. */
  lemma PaddedTag(pre: string, t: string)
    requires AllSpace(pre) && ',' !in pre && FieldTag(t)
    ensures Trim(pre + t) == t && ',' !in pre + t
  {
    TrimPadded(pre, t, "");
    assert pre + t + "" == pre + t;
    forall i | 0 <= i < |pre + t| ensures (pre + t)[i] != ',' {
      if i < |pre| {
        assert (pre + t)[i] in pre;
      } else {
        assert (pre + t)[i] in t;
      }
    }
  }

  lemma JoinCons(pre: string, tags: seq<string>)
    requires |tags| > 1
    ensures pre + Join(tags, ", ") == (pre + tags[0]) + [','] + (" " + Join(tags[1..], ", "))
  {
  }

  lemma NonBlankCons(p: string, rest: seq<string>)
    requires Trim(p) != ""
    ensures NonBlank([p] + rest) == [Trim(p)] + NonBlank(rest)
  {
    assert ([p] + rest)[1..] == rest;
  }

  // ---------------------------------------------------------------------
  // Image address

  /** buildImageUrl(item) with MEDIA_BASE `mediaBase` (`None` is a missing
      item). */
  function BuildImageUrl(item: Option<Record>, mediaBase: string): Value {
    if item.None? then Str("")
    else if Truthy(item.value.imageUrl) then item.value.imageUrl
    else if Truthy(item.value.imageKey) then
      (if mediaBase != "" then Str(mediaBase + "/" + ToStr(item.value.imageKey)) else item.value.imageKey)
    else Str("")
  }

  /** The console shows an image exactly when the item has an image
      address or an image key, and prefers the address; a key is put
      after the media base and '/' when a base is set, and shown as it is
      otherwise; with neither the address is ''. */
  lemma BuildImageUrlSpec(item: Option<Record>, mediaBase: string)
    ensures Truthy(BuildImageUrl(item, mediaBase)) <==>
              item.Some? && (Truthy(item.value.imageUrl) || Truthy(item.value.imageKey))
    ensures item.Some? && Truthy(item.value.imageUrl) ==> BuildImageUrl(item, mediaBase) == item.value.imageUrl
    ensures item.Some? && !Truthy(item.value.imageUrl) && Truthy(item.value.imageKey) && mediaBase == "" ==>
              BuildImageUrl(item, mediaBase) == item.value.imageKey
    ensures item.Some? && !Truthy(item.value.imageUrl) && Truthy(item.value.imageKey) && mediaBase != "" ==>
              BuildImageUrl(item, mediaBase) == Str(mediaBase + "/" + ToStr(item.value.imageKey))
    ensures !(item.Some? && (Truthy(item.value.imageUrl) || Truthy(item.value.imageKey))) ==>
              BuildImageUrl(item, mediaBase) == Str("")
  {
  }

  /** With the same media base on both sides, the console shows a stored
      image at the address the service fills in, whether or not the
      service filled it in. */
  lemma ImageUrlAgreesWithService(rec: Record, base: string)
    requires Trimmed(base) && BaseUrl(base) != ""
    requires rec.imageKey.Str? && rec.imageKey.s != "" && rec.imageKey.s[0] != '/'
    requires !Truthy(rec.imageUrl)
    ensures MapItem(rec, base).Some?
    ensures var url := Str(MediaUrl(base, rec.imageKey.s));
            BuildImageUrl(Some(rec), BaseUrl(base)) == url &&
            BuildImageUrl(Some(MapItem(rec, base).value), BaseUrl(base)) == url
  {
    var key := rec.imageKey.s;
    assert Trim(base) == base;
    assert StripLeading(key, '/') == key;
    var url := MediaUrl(base, key);
    assert url == BaseUrl(base) + "/" + ToStr(rec.imageKey);
    assert base != "" && NeedsImageUrl(rec, base);
    var mapped := rec.(imageUrl := Str(url));
    assert MapItem(rec, base) == Some(mapped);
    assert Truthy(mapped.imageUrl);
  }

  // ---------------------------------------------------------------------
  // Request headers

  /** getHeaders(isJson) with ADMIN_KEY `adminKey`. */
  method GetHeaders(isJson: bool, adminKey: string) returns (headers: map<string, string>)
    ensures headers == RequestHeaders(isJson, adminKey)
  {
    headers := map[];
    if isJson {
      headers := headers["Content-Type" := "application/json"];
    }
    if adminKey != "" {
      headers := headers["x-admin-key" := adminKey];
    }
  }

  /** The headers getHeaders builds: the JSON content type when asked
      for, the admin key when one is configured, nothing else. */
  function RequestHeaders(isJson: bool, adminKey: string): (h: map<string, string>)
    ensures "Content-Type" in h <==> isJson
    ensures "x-admin-key" in h <==> adminKey != ""
    ensures forall k :: k in h ==> k == "Content-Type" || k == "x-admin-key"
    ensures isJson ==> h["Content-Type"] == "application/json"
    ensures adminKey != "" ==> h["x-admin-key"] == adminKey
  {
    var h := if isJson then map["Content-Type" := "application/json"] else map[];
    if adminKey != "" then h["x-admin-key" := adminKey] else h
  }

  /** The service lets the console's requests through exactly when the
      service has no key or both sides hold the same one (a key with no
      surrounding whitespace). */
  lemma ConsoleAuthorized(isJson: bool, consoleKey: string, serviceKey: string)
    requires Trimmed(consoleKey)
    ensures Service.Authorized(serviceKey, RequestHeaders(isJson, consoleKey)) <==>
              serviceKey == "" || serviceKey == consoleKey
  {
    var h := RequestHeaders(isJson, consoleKey);
    if consoleKey != "" {
      assert Service.Header(h, "x-admin-key") == consoleKey;
    } else {
      assert "X-Admin-Key" !in h;
      assert Service.PresentedKey(h) == Trim("");
    }
  }

  // ---------------------------------------------------------------------
  // The form

  /** The values of the form's inputs (the file input apart). */
  datatype Fields = Fields(title: string, summary: string, link: string, tags: string, featured: bool)

  /** The form after `form.reset()`. */
  const EmptyFields := Fields("", "", "", "", false)

  const FieldsRequired := "Title and summary are required."

  /** The body handleSubmit sends, or the message it shows instead. */
  function SubmitPayload(f: Fields): Result<Value, string> {
    var title, summary := Trim(f.title), Trim(f.summary);
    if title == "" || summary == "" then Err(FieldsRequired)
    else Ok(FormBody(title, summary, Trim(f.link), NormaliseTags(f.tags), f.featured))
  }

  /** The body object of a submit; `link: undefined` when the link is
      blank (JSON.stringify then leaves the key out). */
  function FormBody(title: string, summary: string, link: string, tags: seq<string>, featured: bool): (p: Value)
    ensures !Nullish(p)
    ensures Get(p, "title") == Str(title) && Get(p, "summary") == Str(summary)
    ensures Get(p, "link") == (if link == "" then Undefined else Str(link))
    ensures Get(p, "tags") == Arr(Sanitize.StrValues(tags)) && Get(p, "featured") == Bool(featured)
  {
    Obj(map["title" := Str(title), "summary" := Str(summary),
            "link" := if link == "" then Undefined else Str(link),
            "tags" := Arr(Sanitize.StrValues(tags)),
            "featured" := Bool(featured)])
  }

  /** The form is refused exactly when the title or the summary is blank;
      otherwise the body carries them trimmed, the tags as the field
      lists them, and the check box. */
  lemma SubmitPayloadSpec(f: Fields)
    ensures SubmitPayload(f).Err? <==> AllSpace(f.title) || AllSpace(f.summary)
    ensures SubmitPayload(f).Err? ==> SubmitPayload(f).error == FieldsRequired
    ensures SubmitPayload(f).Ok? ==>
              var p := SubmitPayload(f).value;
              Get(p, "title") == Str(Trim(f.title)) && Get(p, "summary") == Str(Trim(f.summary)) &&
              Get(p, "tags") == Arr(Sanitize.StrValues(NormaliseTags(f.tags))) &&
              Get(p, "featured") == Bool(f.featured) &&
              (AllSpace(f.link) <==> Get(p, "link") == Undefined)
  {
  }

  /** A body the console sends is never refused by the service: a create
      stores it, and an edit has updates and a summary. */
  lemma SubmitPayloadAccepted(f: Fields, id: string, now: string)
    requires SubmitPayload(f).Ok?
    ensures NewItem(SubmitPayload(f).value, id, now).Ok?
    ensures UpdatesOf(SubmitPayload(f).value).Ok?
  {
    var title, summary := Trim(f.title), Trim(f.summary);
    var p := FormBody(title, summary, Trim(f.link), NormaliseTags(f.tags), f.featured);
    assert SubmitPayload(f).value == p;
    assert Supplied(p, Summary) == Str(summary);
    assert Supplied(p, Title) == Str(title);
    assert !BlankText(Str(summary)) by {
      assert !IsSpace(summary[0]);
    }
    NewItemSpec(p, id, now);
    UpdatesOfAccepts(p, Title);
  }

  /** What setEditing(item) puts into the form: each text field gets the
      item's value as text (or '' when it has none), the tags field the
      tags joined with ", ", the box whether the item is featured. */
  function FieldsOf(item: Record): Fields {
    Fields(
      title := if Truthy(item.title) then ToStr(item.title) else "",
      summary := if Truthy(item.summary) then ToStr(item.summary) else "",
      link := if Truthy(item.link) then ToStr(item.link) else "",
      tags := if item.tags.Arr? then Join(ElemStrs(item.tags, 0), ", ") else "",
      featured := Truthy(item.featured))
  }

  /** A stored text value with no surrounding whitespace. */
  predicate PlainText(v: Value) {
    v.Str? && v.s != "" && Trimmed(v.s)
  }

  /** The tags of a list of tag values, as text. */
  predicate TagTexts(v: Value) {
    v.Arr? && forall i :: 0 <= i < |v.elems| ==> v.elems[i].Str? && FieldTag(v.elems[i].s)
  }

  /** Opening an item and saving it unchanged sends back its title,
      summary, tags and featured flag (for text without surrounding
      whitespace). */
  lemma EditFormRoundTrip(item: Record)
    requires PlainText(item.title) && PlainText(item.summary) && TagTexts(item.tags)
    ensures SubmitPayload(FieldsOf(item)).Ok?
    ensures var p := SubmitPayload(FieldsOf(item)).value;
            Get(p, "title") == item.title && Get(p, "summary") == item.summary &&
            Get(p, "tags") == item.tags && Get(p, "featured") == Bool(Truthy(item.featured))
  {
    var f := FieldsOf(item);
    var texts := ElemStrs(item.tags, 0);
    TagTextsOf(item.tags, 0);
    NormaliseTagsRoundTrip(texts);
    assert Sanitize.StrValues(texts) == item.tags.elems;
    SubmitPayloadSpec(f);
  }

  lemma {:induction false} TagTextsOf(v: Value, from: nat)
    requires TagTexts(v) && from <= |v.elems|
    decreases |v.elems| - from
    ensures forall i :: 0 <= i < |ElemStrs(v, from)| ==>
              ElemStrs(v, from)[i] == v.elems[from + i].s && FieldTag(ElemStrs(v, from)[i])
  {
    if from < |v.elems| {
      TagTextsOf(v, from + 1);
    }
  }

  // ---------------------------------------------------------------------
  // Console state

  datatype Kind = Info | Success | Warning | Error

  /** The status line under the form. */
  datatype Status = Hidden | Shown(message: string, kind: Kind)

  /** setFormStatus(message, type): an empty message hides the line. */
  function StatusOf(message: string, kind: Kind): Status {
    if message == "" then Hidden else Shown(message, kind)
  }

  /** `text || fallback` */
  function OrText(text: string, fallback: string): string {
    if text != "" then text else fallback
  }

  /** How a create, update or delete request ended: the service answered
      with a success status, answered with an error status and the
      response text, or the request threw with a message. */
  datatype Outcome = Done | Rejected(text: string) | Thrown(message: string)

  /** The message of the error a request helper throws (`text || fallback`
      for an error status). */
  function FailureMessage(o: Outcome, fallback: string): string
    requires !o.Done?
  {
    if o.Rejected? then OrText(o.text, fallback) else o.message
  }

  /** How the list request ended: the items the response carries, an error
      status, or a thrown error. */
  datatype Fetched = Loaded(list: seq<Record>) | LoadRejected(code: nat) | LoadThrown(message: string)

  /** The requests the console sends. */
  datatype Call = ListCall | CreateCall(body: Value) | UpdateCall(id: Value, body: Value) | DeleteCall(deletedId: string)

  /** A request as sent, with whether the form was disabled at that moment. */
  datatype Sent = Sent(call: Call, whileDisabled: bool)

  /** The form as the page shows it: the inputs, the current-image
      preview (`None` when hidden), the heading and the save button's text. */
  datatype Form = Form(fields: Fields, preview: Option<Value>, heading: string, saveLabel: string)

  const CreateHeading := "Create new portfolio item"
  const EditHeading := "Edit portfolio item"
  const SaveItemLabel := "Save item"
  const UpdateItemLabel := "Update item"
  const ApiMissing := "API base URL is not configured."
  const ItemsLoaded := "Latest data loaded."
  const Saving := "Saving…"
  const ProjectUpdated := "Project updated."
  const ProjectCreated := "Project created."
  const SaveFailed := "Save failed."
  const Deleting := "Deleting…"
  const ProjectDeleted := "Project deleted."
  const DeleteFailed := "Delete failed."

  /** The form in create mode, after `form.reset()`. */
  const CreateForm := Form(EmptyFields, None, CreateHeading, SaveItemLabel)

  /** The form after setEditing(item). */
  function EditForm(item: Record, mediaBase: string): Form {
    var url := BuildImageUrl(Some(item), mediaBase);
    Form(FieldsOf(item), if Truthy(url) then Some(url) else None, EditHeading, UpdateItemLabel)
  }

  /** `items.find(i => i.id === id)` */
  function Find(items: seq<Record>, id: Value): (r: Option<Record>)
    ensures r.Some? ==> r.value.id == id && r.value in items
  {
    if items == [] then None
    else if items[0].id == id then Some(items[0])
    else Find(items[1..], id)
  }

  /** find gives the first item carrying the id, and nothing exactly when
      no item carries it. */
  lemma {:induction false} FindSpec(items: seq<Record>, id: Value)
    ensures Find(items, id).None? <==> forall i :: 0 <= i < |items| ==> items[i].id != id
    ensures Find(items, id).Some? ==>
              exists i :: 0 <= i < |items| && items[i] == Find(items, id).value && items[i].id == id &&
                          forall j :: 0 <= j < i ==> items[j].id != id
  {
    if items != [] && items[0].id != id {
      FindSpec(items[1..], id);
      if Find(items[1..], id).Some? {
        var i :| 0 <= i < |items[1..]| && items[1..][i] == Find(items[1..], id).value &&
                 items[1..][i].id == id && forall j :: 0 <= j < i ==> items[1..][j].id != id;
        assert items[i + 1] == Find(items, id).value;
        assert forall j :: 0 <= j < i + 1 ==> items[j].id != id by {
          forall j | 0 <= j < i + 1 ensures items[j].id != id {
            if j > 0 { assert items[j] == items[1..][j - 1]; }
          }
        }
      } else {
        forall i | 0 <= i < |items| ensures items[i].id != id {
          if i > 0 { assert items[i] == items[1..][i - 1]; }
        }
      }
    }
  }

  /** The console page: its configuration, the module state (`editingId`,
      `items`), the form, whether the form is disabled, the status line,
      and the requests sent so far. Each method is one event handler run
      to its end, with the outcome of every request it sends given as a
      parameter. */
  class Console {
    const apiBase: string
    const mediaBase: string
    const adminKey: string
    var editingId: Value
    var items: seq<Record>
    var form: Form
    var disabled: bool
    var status: Status
    var sent: seq<Sent>

    /** The page as loaded, before init(); the bases are read from the
        raw window settings. */
    constructor(rawApiBase: string, rawMediaBase: string, adminKey: string)
      ensures apiBase == BaseUrl(rawApiBase) && mediaBase == BaseUrl(rawMediaBase) && this.adminKey == adminKey
      ensures editingId == Null && items == [] && form == CreateForm
      ensures !disabled && status == Hidden && sent == []
    {
      apiBase := BaseUrl(rawApiBase);
      mediaBase := BaseUrl(rawMediaBase);
      this.adminKey := adminKey;
      editingId := Null;
      items := [];
      form := CreateForm;
      disabled := false;
      status := Hidden;
      sent := [];
    }

    /** The headers a request of this console carries. */
    function Headers(call: Call): map<string, string>
      reads this
    {
      RequestHeaders(call.CreateCall? || call.UpdateCall?, adminKey)
    }

    /** The user types into the form. */
    method Input(f: Fields)
      modifies this
      ensures form == old(form).(fields := f)
      ensures editingId == old(editingId) && items == old(items) && disabled == old(disabled) &&
              status == old(status) && sent == old(sent)
    {
      form := form.(fields := f);
    }

    /** setEditing(item): `None` switches to create mode and leaves the
        status line alone; an item switches to edit mode with the item's
        id, fills the form from the item and hides the status line. */
    method SetEditing(item: Option<Record>)
      modifies this
      ensures item.None? ==> editingId == Null && form == CreateForm && status == old(status)
      ensures item.Some? ==> editingId == item.value.id && form == EditForm(item.value, mediaBase) &&
                             status == Hidden
      ensures items == old(items) && disabled == old(disabled) && sent == old(sent)
    {
      if item.None? {
        editingId := Null;
        form := CreateForm;
        return;
      }
      editingId := item.value.id;
      form := EditForm(item.value, mediaBase);
      status := Hidden;
    }

    /** loadItems(showStatus): nothing without an API base; otherwise one
        list request, whose items replace the list, or whose failure is
        shown on the status line (it never reaches the caller). */
    method LoadItems(showStatus: bool, fetched: Fetched)
      modifies this
      ensures apiBase == "" ==> sent == old(sent) && items == old(items) && status == old(status)
      ensures apiBase != "" ==> sent == old(sent) + [Sent(ListCall, disabled)]
      ensures apiBase != "" && fetched.Loaded? ==>
                items == fetched.list &&
                status == (if showStatus then Shown(ItemsLoaded, Success) else old(status))
      ensures apiBase != "" && fetched.LoadRejected? ==>
                items == old(items) &&
                status == Shown("Failed to load items (" + NatToString(fetched.code) + ")", Error)
      ensures apiBase != "" && fetched.LoadThrown? ==>
                items == old(items) && status == StatusOf(fetched.message, Error)
      ensures editingId == old(editingId) && form == old(form) && disabled == old(disabled)
    {
      if apiBase == "" {
        return;
      }
      sent := sent + [Sent(ListCall, disabled)];
      match fetched
      case Loaded(list) =>
        items := list;
        if showStatus {
          status := Shown(ItemsLoaded, Success);
        }
      case LoadRejected(code) =>
        status := StatusOf("Failed to load items (" + NatToString(code) + ")", Error);
      case LoadThrown(message) =>
        status := StatusOf(message, Error);
    }

    /** handleSubmit without an image file. Without an API base or with a
        blank title or summary it shows why and sends nothing; otherwise it
        saves the form's body. */
    method Submit(saved: Outcome, reload: Fetched)
      modifies this
      ensures apiBase == "" ==> status == Shown(ApiMissing, Error)
      ensures apiBase != "" && SubmitPayload(old(form).fields).Err? ==> status == Shown(FieldsRequired, Error)
      ensures apiBase == "" || SubmitPayload(old(form).fields).Err? ==>
                editingId == old(editingId) && items == old(items) && form == old(form) &&
                disabled == old(disabled) && sent == old(sent)
      ensures apiBase != "" && SubmitPayload(old(form).fields).Ok? ==>
                SaveDone(SubmitPayload(old(form).fields).value, saved, reload,
                         old(editingId), old(items), old(form), old(sent))
    {
      if apiBase == "" {
        status := Shown(ApiMissing, Error);
        return;
      }
      var checked := SubmitPayload(form.fields);
      if checked.Err? {
        status := Shown(checked.error, Error);
        return;
      }
      Save(checked.value, saved, reload);
    }

    /** The saving part of handleSubmit: with the form disabled, it sends
        the update of the item being edited (or a create when none is),
        reloads the list after a success and shows the result; the form is
        enabled again at the end whatever happened. */
    method Save(payload: Value, saved: Outcome, reload: Fetched)
      requires apiBase != ""
      modifies this
      ensures SaveDone(payload, saved, reload, old(editingId), old(items), old(form), old(sent))
    {
      var id := editingId;
      disabled := true;
      status := Shown(Saving, Info);
      var call := if Truthy(id) then UpdateCall(id, payload) else CreateCall(payload);
      sent := sent + [Sent(call, true)];
      if saved.Done? {
        LoadItems(false, reload);
        if Truthy(id) {
          var updated := Find(items, id);
          if updated.Some? {
            SetEditing(updated);
          }
          status := Shown(ProjectUpdated, Success);
        } else {
          SetEditing(None);
          status := Shown(ProjectCreated, Success);
        }
      } else {
        status := Shown(OrText(FailureMessage(saved, SaveFallback(id)), SaveFailed), Error);
      }
      disabled := false;
    }

    /** The state after a save that started from `id`, `before`, `form0`
        and `sent0`: the requests sent, the form enabled, and per outcome
        the list, the mode, the form and the status line. */
    predicate SaveDone(payload: Value, saved: Outcome, reload: Fetched,
                       id: Value, before: seq<Record>, form0: Form, sent0: seq<Sent>)
      reads this
    {
      SubmitSent(id, payload, saved, sent0) && !disabled &&
      (!saved.Done? ==>
         editingId == id && items == before && form == form0 &&
         status == Shown(OrText(FailureMessage(saved, SaveFallback(id)), SaveFailed), Error)) &&
      (saved.Done? ==> items == (if reload.Loaded? then reload.list else before)) &&
      (saved.Done? && Truthy(id) ==> Saved(id, form0)) &&
      (saved.Done? && !Truthy(id) ==>
         editingId == Null && form == CreateForm && status == Shown(ProjectCreated, Success))
    }

    /** The requests a submit that passed validation sent: the create or
        update, and the list request after a success, all while the form
        was disabled. */
    predicate SubmitSent(id: Value, payload: Value, saved: Outcome, before: seq<Sent>)
      reads this
    {
      var call := if Truthy(id) then UpdateCall(id, payload) else CreateCall(payload);
      sent == before + [Sent(call, true)] + (if saved.Done? then [Sent(ListCall, true)] else [])
    }

    /** After a successful edit the console stays on the same item, shows
        it as reloaded (the form is kept when the reload lacks it), and
        reports the update. */
    predicate Saved(id: Value, before: Form)
      reads this
    {
      editingId == id && status == Shown(ProjectUpdated, Success) &&
      form == (if Find(items, id).Some? then EditForm(Find(items, id).value, mediaBase) else before)
    }

    /** The Edit button of the card for `id`: opens the listed item. */
    method Edit(id: string)
      modifies this
      ensures Find(old(items), Str(id)).Some? ==>
                editingId == Str(id) && form == EditForm(Find(old(items), Str(id)).value, mediaBase) &&
                status == Hidden
      ensures Find(old(items), Str(id)).None? ==>
                editingId == old(editingId) && form == old(form) && status == old(status)
      ensures items == old(items) && disabled == old(disabled) && sent == old(sent)
    {
      var item := Find(items, Str(id));
      if item.Some? {
        SetEditing(item);
      }
    }

    /** handleReset: back to create mode with the status line hidden. */
    method Reset()
      modifies this
      ensures editingId == Null && form == CreateForm && status == Hidden
      ensures items == old(items) && disabled == old(disabled) && sent == old(sent)
    {
      SetEditing(None);
      status := Hidden;
    }

    /** The Delete button of the card for `id`. Nothing happens for an id
        not in the list or when the user does not confirm. Otherwise, with
        the form disabled, the delete is sent; after a success the list is
        reloaded, create mode is restored only when the deleted item was
        the one being edited, and the deletion is reported; a failure is
        shown. The form is enabled again at the end. */
    method Delete(id: string, confirmed: bool, deleted: Outcome, reload: Fetched)
      modifies this
      ensures Find(old(items), Str(id)).None? || !confirmed ==>
                editingId == old(editingId) && items == old(items) && form == old(form) &&
                disabled == old(disabled) && status == old(status) && sent == old(sent)
      ensures Find(old(items), Str(id)).Some? && confirmed ==>
                !disabled &&
                sent == old(sent) + [Sent(DeleteCall(id), true)] +
                        (if deleted.Done? && apiBase != "" then [Sent(ListCall, true)] else [])
      ensures Find(old(items), Str(id)).Some? && confirmed && deleted.Done? ==>
                items == (if apiBase != "" && reload.Loaded? then reload.list else old(items)) &&
                status == Shown(ProjectDeleted, Success) &&
                (old(editingId) == Str(id) ==> editingId == Null && form == CreateForm) &&
                (old(editingId) != Str(id) ==> editingId == old(editingId) && form == old(form))
      ensures Find(old(items), Str(id)).Some? && confirmed && !deleted.Done? ==>
                items == old(items) && editingId == old(editingId) && form == old(form) &&
                status == Shown(OrText(FailureMessage(deleted, "Failed to delete item"), DeleteFailed), Error)
    {
      if Find(items, Str(id)).None? || !confirmed {
        return;
      }
      disabled := true;
      status := Shown(Deleting, Warning);
      sent := sent + [Sent(DeleteCall(id), true)];
      if deleted.Done? {
        LoadItems(false, reload);
        if editingId == Str(id) {
          SetEditing(None);
        }
        status := Shown(ProjectDeleted, Success);
      } else {
        status := Shown(OrText(FailureMessage(deleted, "Failed to delete item"), DeleteFailed), Error);
      }
      disabled := false;
    }
  }

  /** The fallback message of the request a submit sends. */
  function SaveFallback(id: Value): string {
    if Truthy(id) then "Failed to update item" else "Failed to create item"
  }
}
