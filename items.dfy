/** The item logic of the portfolio service
    (infrastructure/functions/portfolio/handler.js): the record a create
    stores, the updates an edit applies, the DynamoDB SET expression that
    carries them, the media URL added on the way out, and the object key
    and URLs of an upload. The table itself lives in module Service. */
module Items {
  import opened Js
  import opened Wrappers
  import opened Sanitize

  /** The attributes an item carries. */
  datatype Attr =
    | Id | Title | Summary | Link | Tags | Featured | ImageKey | ImageAlt
    | ImageUrl | CreatedAt | UpdatedAt

  /** The attribute's name, as a property of the request body and of the
      stored item. */
  function Name(a: Attr): string {
    match a
    case Id => "id"
    case Title => "title"
    case Summary => "summary"
    case Link => "link"
    case Tags => "tags"
    case Featured => "featured"
    case ImageKey => "imageKey"
    case ImageAlt => "imageAlt"
    case ImageUrl => "imageUrl"
    case CreatedAt => "createdAt"
    case UpdatedAt => "updatedAt"
  }

  /** A stored item: one value per attribute, `Undefined` where the item
      has none. */
  datatype Record = Record(
    id: Value, title: Value, summary: Value, link: Value, tags: Value,
    featured: Value, imageKey: Value, imageAlt: Value, imageUrl: Value,
    createdAt: Value, updatedAt: Value)

  /** The item with no attributes at all. */
  const Blank := Record(Undefined, Undefined, Undefined, Undefined, Undefined,
                        Undefined, Undefined, Undefined, Undefined, Undefined, Undefined)

  /** `item[name]` */
  function Field(rec: Record, a: Attr): Value {
    match a
    case Id => rec.id
    case Title => rec.title
    case Summary => rec.summary
    case Link => rec.link
    case Tags => rec.tags
    case Featured => rec.featured
    case ImageKey => rec.imageKey
    case ImageAlt => rec.imageAlt
    case ImageUrl => rec.imageUrl
    case CreatedAt => rec.createdAt
    case UpdatedAt => rec.updatedAt
  }

  /** `item[name] = v` */
  function SetField(rec: Record, a: Attr, v: Value): (r: Record)
    ensures Field(r, a) == v
    ensures forall b :: b != a ==> Field(r, b) == Field(rec, b)
  {
    match a
    case Id => rec.(id := v)
    case Title => rec.(title := v)
    case Summary => rec.(summary := v)
    case Link => rec.(link := v)
    case Tags => rec.(tags := v)
    case Featured => rec.(featured := v)
    case ImageKey => rec.(imageKey := v)
    case ImageAlt => rec.(imageAlt := v)
    case ImageUrl => rec.(imageUrl := v)
    case CreatedAt => rec.(createdAt := v)
    case UpdatedAt => rec.(updatedAt := v)
  }

  /** Why an operation stopped: an `HttpError` with its status and message,
      or any other exception (a `TypeError` on a null body, say), which the
      handler answers with 500. */
  datatype Failure = HttpError(status: nat, message: string) | Crash

  const MissingId := HttpError(400, "Missing item id")
  const SummaryRequired := HttpError(400, "Summary is required.")
  const NoUpdates := HttpError(400, "No updates provided")
  const ItemNotFound := HttpError(404, "Item not found")
  const FilenameRequired := HttpError(400, "Filename is required")

  const UntitledProject := "Untitled project"
  const MaxTitleLength: nat := 200
  const MaxSummaryLength: nat := 600
  const MaxAltLength: nat := 120

  /** The fields an edit may change, in the order updateItem visits them. */
  const UpdatableFields: seq<Attr> :=
    [Title, Summary, Link, Tags, Featured, ImageKey, ImageAlt]

  /** `text || fallback` for the result of a sanitiser (`None` is
      `undefined`). */
  function OrElse(text: Option<string>, fallback: Value): Value {
    if text.Some? && text.value != "" then Str(text.value) else fallback
  }

  /** The value the request body gives for attribute `a`. */
  function Supplied(payload: Value, a: Attr): Value {
    Get(payload, Name(a))
  }

  /** `sanitizeString(v, n) || fallback` is the fallback exactly when the
      value is null, undefined or whitespace only. */
  predicate BlankText(v: Value) {
    Nullish(v) || AllSpace(ToStr(v))
  }

  lemma SanitizedOrElse(v: Value, n: nat, fallback: Value)
    ensures var r := OrElse(SanitizeString(v, n), fallback);
            (BlankText(v) ==> r == fallback) &&
            (!BlankText(v) ==> r.Str? && r.s != "" && IsPrefix(r.s, Trim(ToStr(v))) &&
                               |r.s| <= (if n == 0 then DefaultMaxLength else n))
  {
  }

  // ---------------------------------------------------------------------
  // createItem

  /** The stored value of an updatable field as updateItem computes it from
      the supplied value `v`. */
  function FieldValue(a: Attr, v: Value): Value {
    match a
    case Title => OrElse(SanitizeString(v, MaxTitleLength), Str(UntitledProject))
    case Summary => OrElse(SanitizeString(v, MaxSummaryLength), Str(""))
    case Link => OrElse(SanitizeUrl(v), Null)
    case Tags => Arr(StrValues(NormalizeTags(v)))
    case Featured => Bool(Truthy(v))
    case ImageKey => OrElse(SanitizeKey(v), Null)
    case _ => OrElse(SanitizeString(v, MaxAltLength), Null)
  }

  /** The record createItem builds from a (non-null) payload with the fresh
      `id` and timestamp `now`. Unlike an edit, a create leaves an invalid
      link `undefined` rather than null. */
  function ItemOf(payload: Value, id: string, now: string): Record {
    var link := SanitizeUrl(Supplied(payload, Link));
    Record(
      id := Str(id),
      title := FieldValue(Title, Supplied(payload, Title)),
      summary := FieldValue(Summary, Supplied(payload, Summary)),
      link := if link.Some? then Str(link.value) else Undefined,
      tags := FieldValue(Tags, Supplied(payload, Tags)),
      featured := FieldValue(Featured, Supplied(payload, Featured)),
      imageKey := FieldValue(ImageKey, Supplied(payload, ImageKey)),
      imageAlt := FieldValue(ImageAlt, Supplied(payload, ImageAlt)),
      imageUrl := Undefined,
      createdAt := Str(now),
      updatedAt := Str(now))
  }

  /** createItem(payload) up to the put: the record to store, or why it is
      refused. Reading a field of a null payload throws. */
  function NewItem(payload: Value, id: string, now: string): Result<Record, Failure> {
    if Nullish(payload) then Err(Crash)
    else
      var item := ItemOf(payload, id, now);
      if item.summary == Str("") then Err(SummaryRequired) else Ok(item)
  }

  /** The tags of a record, as stored: an array of tag strings. */
  predicate TagList(v: Value) {
    v.Arr? && forall i :: 0 <= i < |v.elems| ==> v.elems[i].Str? && IsTag(v.elems[i].s)
  }

  /** An image key as stored: null, or text that does not start with '/'. */
  predicate StoredImageKey(v: Value) {
    v == Null || (v.Str? && v.s != "" && v.s[0] != '/')
  }

  /** A stored title is never blank: a blank one becomes 'Untitled
      project', any other is the trimmed text cut to 200 characters. */
  lemma TitleValue(v: Value)
    ensures var r := FieldValue(Title, v);
            r.Str? && r.s != "" &&
            (BlankText(v) ==> r == Str(UntitledProject)) &&
            (!BlankText(v) ==> IsPrefix(r.s, Trim(ToStr(v))) && |r.s| <= MaxTitleLength)
  {
    SanitizedOrElse(v, MaxTitleLength, Str(UntitledProject));
  }

  /** The stored summary is '' exactly when the supplied one is blank. */
  lemma SummaryValue(v: Value)
    ensures var r := FieldValue(Summary, v);
            r.Str? && (r.s == "" <==> BlankText(v))
  {
    SanitizedOrElse(v, MaxSummaryLength, Str(""));
  }

  /** A stored image key is null (also for a missing one) or text without a
      leading '/'. */
  lemma ImageKeyValue(v: Value)
    ensures StoredImageKey(FieldValue(ImageKey, v))
    ensures Nullish(v) ==> FieldValue(ImageKey, v) == Null
  {
  }

  /** `featured` is stored as the truth value of what was supplied. */
  lemma FeaturedValue(v: Value)
    ensures FieldValue(Featured, v) == Bool(Truthy(v))
  {
  }

  /** A blank image description is stored as null. */
  lemma ImageAltValue(v: Value)
    ensures BlankText(v) ==> FieldValue(ImageAlt, v) == Null
  {
    SanitizedOrElse(v, MaxAltLength, Null);
  }

  /** What createItem promises about the record it builds: the title is
      never blank, the tags are normalised, `featured` is a boolean, absent
      image fields are null and both timestamps are `now`. */
  lemma ItemOfSpec(payload: Value, id: string, now: string)
    ensures var item := ItemOf(payload, id, now);
            item.id == Str(id) &&
            item.title.Str? && item.title.s != "" &&
            (BlankText(Supplied(payload, Title)) ==> item.title == Str(UntitledProject)) &&
            TagList(item.tags) &&
            item.featured == Bool(Truthy(Supplied(payload, Featured))) &&
            StoredImageKey(item.imageKey) &&
            (Nullish(Supplied(payload, ImageKey)) ==> item.imageKey == Null) &&
            (BlankText(Supplied(payload, ImageAlt)) ==> item.imageAlt == Null) &&
            item.createdAt == item.updatedAt == Str(now)
  {
    TitleValue(Supplied(payload, Title));
    FeaturedValue(Supplied(payload, Featured));
    ImageKeyValue(Supplied(payload, ImageKey));
    ImageAltValue(Supplied(payload, ImageAlt));
    StoredTags(Supplied(payload, Tags));
  }

  /** createItem refuses a null body (a `TypeError`) and a blank or missing
      summary (400), before anything is written; otherwise it stores
      `ItemOf`, whose summary is not blank. */
  lemma NewItemSpec(payload: Value, id: string, now: string)
    ensures Nullish(payload) ==> NewItem(payload, id, now) == Err(Crash)
    ensures !Nullish(payload) ==>
              (NewItem(payload, id, now).Err? <==> BlankText(Supplied(payload, Summary)))
    ensures !Nullish(payload) && NewItem(payload, id, now).Err? ==>
              NewItem(payload, id, now).error == SummaryRequired
    ensures NewItem(payload, id, now).Ok? ==>
              var item := NewItem(payload, id, now).value;
              item == ItemOf(payload, id, now) && item.summary.Str? && item.summary.s != ""
  {
    SummaryValue(Supplied(payload, Summary));
  }

  /** The stored tag list is an array of well-formed tags. */
  lemma StoredTags(v: Value)
    ensures TagList(FieldValue(Tags, v))
  {
    var tags := NormalizeTags(v);
    assert FieldValue(Tags, v) == Arr(StrValues(tags));
    NormalizeTagsAreTags(v);
    TagListOf(tags);
  }

  lemma TagListOf(tags: seq<string>)
    requires forall t :: t in tags ==> IsTag(t)
    ensures TagList(Arr(StrValues(tags)))
  {
    forall i | 0 <= i < |tags| ensures IsTag(tags[i]) {
      assert tags[i] in tags;
    }
  }

  // ---------------------------------------------------------------------
  // updateItem: the updates, their effect on a record, the SET expression

  /** The attributes of a list of updates, in order. */
  function Keys(ups: seq<(Attr, Value)>): (keys: seq<Attr>)
    ensures |keys| == |ups|
    ensures forall i :: 0 <= i < |ups| ==> keys[i] == ups[i].0
  {
    seq(|ups|, i requires 0 <= i < |ups| => ups[i].0)
  }

  predicate Distinct(attrs: seq<Attr>) {
    forall i, j :: 0 <= i < j < |attrs| ==> attrs[i] != attrs[j]
  }

  /** The fields among `fields` that the payload supplies
      (`payload[name] !== undefined`), in order, with the supplied values. */
  function Present(payload: Value, fields: seq<Attr>): seq<(Attr, Value)> {
    if fields == [] then []
    else
      var a, v := fields[0], Supplied(payload, fields[0]);
      (if v == Undefined then [] else [(a, v)]) + Present(payload, fields[1..])
  }

  /** Each supplied value replaced by what the field's sanitiser makes of it. */
  function Sanitized(present: seq<(Attr, Value)>): (ups: seq<(Attr, Value)>)
    ensures |ups| == |present|
    ensures forall i :: 0 <= i < |ups| ==>
              ups[i] == (present[i].0, FieldValue(present[i].0, present[i].1))
  {
    seq(|present|, i requires 0 <= i < |present| => (present[i].0, FieldValue(present[i].0, present[i].1)))
  }

  /** The present fields are exactly the supplied ones, with the supplied
      values. */
  lemma PresentMembers(payload: Value, fields: seq<Attr>)
    ensures var p := Present(payload, fields);
            (forall a :: a in Keys(p) <==> a in fields && Supplied(payload, a) != Undefined) &&
            (forall i :: 0 <= i < |p| ==> p[i].1 == Supplied(payload, p[i].0))
  {
    PresentKeys(payload, fields);
    PresentValues(payload, fields);
  }

  lemma {:induction false} PresentKeys(payload: Value, fields: seq<Attr>)
    ensures forall a :: a in Keys(Present(payload, fields)) <==> a in fields && Supplied(payload, a) != Undefined
  {
    if fields != [] {
      var rest := fields[1..];
      PresentKeys(payload, rest);
      var a, v := fields[0], Supplied(payload, fields[0]);
      var head: seq<(Attr, Value)> := if v == Undefined then [] else [(a, v)];
      var tail := Present(payload, rest);
      assert Present(payload, fields) == head + tail;
      KeysAppend(head, tail);
      if v == Undefined {
        assert Keys(head) == [];
      } else {
        assert Keys(head) == [a];
      }
      assert forall b :: b in fields <==> b == a || b in rest by {
        assert fields == [a] + rest;
      }
    }
  }

  /** Every entry of `p` carries the value the payload supplies for its
      field. */
  predicate SuppliedValues(payload: Value, p: seq<(Attr, Value)>) {
    forall i :: 0 <= i < |p| ==> p[i].1 == Supplied(payload, p[i].0)
  }

  lemma {:induction false} PresentValues(payload: Value, fields: seq<Attr>)
    ensures SuppliedValues(payload, Present(payload, fields))
  {
    if fields != [] {
      PresentValues(payload, fields[1..]);
      var a, v := fields[0], Supplied(payload, fields[0]);
      var head: seq<(Attr, Value)> := if v == Undefined then [] else [(a, v)];
      var tail := Present(payload, fields[1..]);
      assert Present(payload, fields) == head + tail;
      assert SuppliedValues(payload, head);
      SuppliedValuesAppend(payload, head, tail);
    }
  }

  lemma SuppliedValuesAppend(payload: Value, head: seq<(Attr, Value)>, tail: seq<(Attr, Value)>)
    requires SuppliedValues(payload, head) && SuppliedValues(payload, tail)
    ensures SuppliedValues(payload, head + tail)
  {
    var p := head + tail;
    forall i | 0 <= i < |p| ensures p[i].1 == Supplied(payload, p[i].0) {
      if i >= |head| {
        assert p[i] == tail[i - |head|];
      } else {
        assert p[i] == head[i];
      }
    }
  }

  lemma KeysAppend(head: seq<(Attr, Value)>, tail: seq<(Attr, Value)>)
    ensures Keys(head + tail) == Keys(head) + Keys(tail)
  {
    assert forall i :: 0 <= i < |head| + |tail| ==>
             Keys(head + tail)[i] == (Keys(head) + Keys(tail))[i];
  }

  /** Each field is present at most once. */
  lemma {:induction false} PresentDistinct(payload: Value, fields: seq<Attr>)
    requires Distinct(fields)
    ensures Distinct(Keys(Present(payload, fields)))
  {
    if fields != [] {
      var rest := fields[1..];
      assert Distinct(rest) by {
        forall i, j | 0 <= i < j < |rest| ensures rest[i] != rest[j] {
          assert rest[i] == fields[i + 1] && rest[j] == fields[j + 1];
        }
      }
      PresentDistinct(payload, rest);
      PresentMembers(payload, rest);
      var a, v := fields[0], Supplied(payload, fields[0]);
      var head: seq<(Attr, Value)> := if v == Undefined then [] else [(a, v)];
      var tail := Present(payload, rest);
      assert a !in rest by {
        forall j | 0 <= j < |rest| ensures rest[j] != a {
          assert rest[j] == fields[j + 1];
        }
      }
      assert Present(payload, fields) == head + tail;
      DistinctCons(head, tail, a);
    }
  }

  lemma DistinctCons(head: seq<(Attr, Value)>, tail: seq<(Attr, Value)>, a: Attr)
    requires |head| <= 1 && (head != [] ==> head[0].0 == a)
    requires Distinct(Keys(tail)) && a !in Keys(tail)
    ensures Distinct(Keys(head + tail))
  {
    var keys := Keys(head + tail);
    forall i, j | 0 <= i < j < |keys| ensures keys[i] != keys[j] {
      assert keys[j] == Keys(tail)[j - |head|];
      if i >= |head| {
        assert keys[i] == Keys(tail)[i - |head|];
      }
    }
  }

  lemma UpdatableFieldsAreDistinct()
    ensures Distinct(UpdatableFields)
  {
  }

  /** updateItem(id, payload) up to the store call: the updates, or why it
      is refused. */
  function UpdatesOf(payload: Value): Result<seq<(Attr, Value)>, Failure> {
    if Nullish(payload) then Err(Crash)
    else
      var summary := Supplied(payload, Summary);
      if summary != Undefined && FieldValue(Summary, summary) == Str("") then Err(SummaryRequired)
      else
        var ups := Sanitized(Present(payload, UpdatableFields));
        if ups == [] then Err(NoUpdates) else Ok(ups)
  }

  /** What updateItem promises before it reaches the store: a null body
      throws; a supplied summary that is blank is refused with 400; a body
      that supplies none of the updatable fields is refused with 400 'No
      updates provided'; otherwise the updates hold exactly the supplied
      fields, each once, with their sanitised values. */
  lemma UpdatesOfSpec(payload: Value)
    ensures Nullish(payload) ==> UpdatesOf(payload) == Err(Crash)
    ensures !Nullish(payload) && Supplied(payload, Summary) != Undefined &&
              BlankText(Supplied(payload, Summary)) ==>
              UpdatesOf(payload) == Err(SummaryRequired)
    ensures !Nullish(payload) && (Supplied(payload, Summary) == Undefined ||
                                  !BlankText(Supplied(payload, Summary))) ==>
              (UpdatesOf(payload) == Err(NoUpdates) <==>
               forall a :: a in UpdatableFields ==> Supplied(payload, a) == Undefined)
    ensures UpdatesOf(payload).Ok? ==>
              var ups := UpdatesOf(payload).value;
              Distinct(Keys(ups)) &&
              (forall a :: a in Keys(ups) <==> a in UpdatableFields && Supplied(payload, a) != Undefined) &&
              (forall i :: 0 <= i < |ups| ==> ups[i].1 == FieldValue(ups[i].0, Supplied(payload, ups[i].0)))
  {
    if !Nullish(payload) {
      SummaryValue(Supplied(payload, Summary));
      UpdatableFieldsAreDistinct();
      var p := Present(payload, UpdatableFields);
      PresentMembers(payload, UpdatableFields);
      PresentDistinct(payload, UpdatableFields);
      assert Keys(Sanitized(p)) == Keys(p);
      if p == [] {
        forall a | a in UpdatableFields ensures Supplied(payload, a) == Undefined {
          assert a !in Keys(p);
        }
      } else {
        assert p[0].0 in Keys(p);
      }
    }
  }

  /** Conversely, updateItem accepts a body that supplies an updatable
      field and no blank summary. */
  lemma UpdatesOfAccepts(payload: Value, a: Attr)
    requires !Nullish(payload)
    requires a in UpdatableFields && Supplied(payload, a) != Undefined
    requires Supplied(payload, Summary) == Undefined || !BlankText(Supplied(payload, Summary))
    ensures UpdatesOf(payload).Ok?
  {
    SummaryValue(Supplied(payload, Summary));
    PresentKeys(payload, UpdatableFields);
    assert a in Keys(Present(payload, UpdatableFields));
  }

  /** The record after `item[key] = value` for each update in turn. */
  function Overlay(rec: Record, ups: seq<(Attr, Value)>): Record {
    if ups == [] then rec
    else
      var last := ups[|ups| - 1];
      SetField(Overlay(rec, ups[..|ups| - 1]), last.0, last.1)
  }

  /** Applying updates with distinct fields sets each field to its value
      and changes nothing else. */
  lemma {:induction false} OverlaySpec(rec: Record, ups: seq<(Attr, Value)>)
    requires Distinct(Keys(ups))
    ensures forall i :: 0 <= i < |ups| ==> Field(Overlay(rec, ups), ups[i].0) == ups[i].1
    ensures forall a :: a !in Keys(ups) ==> Field(Overlay(rec, ups), a) == Field(rec, a)
  {
    if ups != [] {
      var init, last := ups[..|ups| - 1], ups[|ups| - 1];
      assert Keys(ups) == Keys(init) + [last.0];
      assert Distinct(Keys(init)) by {
        forall i, j | 0 <= i < j < |init| ensures init[i].0 != init[j].0 {
          assert Keys(ups)[i] == init[i].0 && Keys(ups)[j] == init[j].0;
        }
      }
      OverlaySpec(rec, init);
      forall i | 0 <= i < |init| ensures init[i].0 != last.0 {
        assert Keys(ups)[i] != Keys(ups)[|ups| - 1];
      }
    }
  }

  /** `#f${i}`, `:v${i}` and `#f${i} = :v${i}`: the placeholders and the
      assignment of the i-th update. */
  function NamePlaceholder(i: nat): string {
    "#f" + NatToString(i)
  }

  function ValuePlaceholder(i: nat): string {
    ":v" + NatToString(i)
  }

  function Assignment(i: nat): string {
    NamePlaceholder(i) + " = " + ValuePlaceholder(i)
  }

  /** The assignments of the first `k` updates, numbered from 1. */
  function Assignments(k: nat): seq<string> {
    seq(k, i requires 0 <= i < k => Assignment(i + 1))
  }

  /** The UpdateExpression sent with `n` updates. */
  function UpdateExpression(n: nat): string {
    "SET " + Join(Assignments(n), ", ") + ", #updatedAt = :updatedAt"
  }

  /** ExpressionAttributeNames after the first `k` updates: which attribute
      each name placeholder stands for. */
  function ExprNames(ups: seq<(Attr, Value)>, k: nat): map<string, Attr>
    requires k <= |ups|
  {
    if k == 0 then map["#updatedAt" := UpdatedAt]
    else ExprNames(ups, k - 1)[NamePlaceholder(k) := ups[k - 1].0]
  }

  /** ExpressionAttributeValues after the first `k` updates. */
  function ExprValues(ups: seq<(Attr, Value)>, k: nat, now: string): map<string, Value>
    requires k <= |ups|
  {
    if k == 0 then map[":updatedAt" := Str(now)]
    else ExprValues(ups, k - 1, now)[ValuePlaceholder(k) := ups[k - 1].1]
  }

  /** The loop of updateItem that numbers the updates from 1 and fills the
      name and value maps and the list of assignments. */
  method BuildUpdateExpression(ups: seq<(Attr, Value)>, now: string)
    returns (expr: string, names: map<string, Attr>, values: map<string, Value>)
    ensures expr == UpdateExpression(|ups|)
    ensures names == ExprNames(ups, |ups|)
    ensures values == ExprValues(ups, |ups|, now)
  {
    var assignments: seq<string> := [];
    names := map["#updatedAt" := UpdatedAt];
    values := map[":updatedAt" := Str(now)];
    var index := 0;
    while index < |ups|
      invariant 0 <= index <= |ups|
      invariant names == ExprNames(ups, index)
      invariant values == ExprValues(ups, index, now)
      invariant assignments == Assignments(index)
    {
      var (key, value) := ups[index];
      index := index + 1;
      var nameKey, valueKey := NamePlaceholder(index), ValuePlaceholder(index);
      names := names[nameKey := key];
      values := values[valueKey := value];
      assignments := assignments + [nameKey + " = " + valueKey];
    }
    expr := "SET " + Join(assignments, ", ") + ", #updatedAt = :updatedAt";
  }

  /** Placeholders of different updates differ, and none is the one for
      `updatedAt`. */
  lemma PlaceholdersDistinct(i: nat, j: nat)
    ensures NamePlaceholder(i) != "#updatedAt" && ValuePlaceholder(i) != ":updatedAt"
    ensures i != j ==> NamePlaceholder(i) != NamePlaceholder(j) &&
                       ValuePlaceholder(i) != ValuePlaceholder(j)
  {
    assert NamePlaceholder(i)[2] != "#updatedAt"[2];
    assert ValuePlaceholder(i)[2] != ":updatedAt"[2];
    if i != j {
      NatToStringInjective(i, j);
      assert NamePlaceholder(i)[2..] == NatToString(i) && NamePlaceholder(j)[2..] == NatToString(j);
      assert ValuePlaceholder(i)[2..] == NatToString(i) && ValuePlaceholder(j)[2..] == NatToString(j);
    }
  }

  /** Different updates get different assignments. */
  lemma AssignmentInjective(i: nat, j: nat)
    requires i != j
    ensures Assignment(i) != Assignment(j)
  {
    var a, b := NatToString(i), NatToString(j);
    var x, y := Assignment(i), Assignment(j);
    assert x == "#f" + a + (" = " + ValuePlaceholder(i));
    assert y == "#f" + b + (" = " + ValuePlaceholder(j));
    if |a| == |b| {
      NatToStringInjective(i, j);
      assert x[2..2 + |a|] == a && y[2..2 + |b|] == b;
    } else if |a| < |b| {
      assert x[2 + |a|] == ' ' && y[2 + |a|] == b[|a|];
    } else {
      assert y[2 + |b|] == ' ' && x[2 + |b|] == a[|b|];
    }
  }

  /** The expression holds one assignment per update, all different. */
  lemma AssignmentsDistinct(n: nat)
    ensures |Assignments(n)| == n
    ensures forall i, j :: 0 <= i < j < n ==> Assignments(n)[i] != Assignments(n)[j]
  {
    forall i, j | 0 <= i < j < n ensures Assignments(n)[i] != Assignments(n)[j] {
      AssignmentInjective(i + 1, j + 1);
    }
  }

  /** The names map has one entry per update plus `#updatedAt`: the i-th
      placeholder names the i-th update's attribute. */
  lemma ExprNamesSpec(ups: seq<(Attr, Value)>, k: nat)
    requires k <= |ups|
    ensures ExprNames(ups, k).Keys == {"#updatedAt"} + set i | 1 <= i <= k :: NamePlaceholder(i)
    ensures ExprNames(ups, k)["#updatedAt"] == UpdatedAt
    ensures forall i :: 1 <= i <= k ==> ExprNames(ups, k)[NamePlaceholder(i)] == ups[i - 1].0
  {
    ExprNamesKeys(ups, k);
    ExprNamesAt(ups, k);
  }

  lemma {:induction false} ExprNamesKeys(ups: seq<(Attr, Value)>, k: nat)
    requires k <= |ups|
    ensures ExprNames(ups, k).Keys == {"#updatedAt"} + set i | 1 <= i <= k :: NamePlaceholder(i)
  {
    if k > 0 {
      ExprNamesKeys(ups, k - 1);
      assert ExprNames(ups, k).Keys == ExprNames(ups, k - 1).Keys + {NamePlaceholder(k)};
      PlaceholdersNumbered(k);
    }
  }

  lemma {:induction false} ExprNamesAt(ups: seq<(Attr, Value)>, k: nat)
    requires k <= |ups|
    ensures "#updatedAt" in ExprNames(ups, k) && ExprNames(ups, k)["#updatedAt"] == UpdatedAt
    ensures forall i :: 1 <= i <= k ==>
              NamePlaceholder(i) in ExprNames(ups, k) && ExprNames(ups, k)[NamePlaceholder(i)] == ups[i - 1].0
  {
    if k > 0 {
      ExprNamesAt(ups, k - 1);
      PlaceholdersDistinct(k, k);
      forall i | 1 <= i < k ensures NamePlaceholder(i) != NamePlaceholder(k) {
        PlaceholdersDistinct(i, k);
      }
    }
  }

  /** The placeholders up to `k` are those up to `k - 1` and the k-th. */
  lemma PlaceholdersNumbered(k: nat)
    requires k > 0
    ensures (set i | 1 <= i <= k :: NamePlaceholder(i)) ==
              (set i | 1 <= i <= k - 1 :: NamePlaceholder(i)) + {NamePlaceholder(k)}
    ensures (set i | 1 <= i <= k :: ValuePlaceholder(i)) ==
              (set i | 1 <= i <= k - 1 :: ValuePlaceholder(i)) + {ValuePlaceholder(k)}
  {
  }

  /** The values map has one entry per update plus `:updatedAt`: the i-th
      placeholder holds the i-th update's value. */
  lemma ExprValuesSpec(ups: seq<(Attr, Value)>, k: nat, now: string)
    requires k <= |ups|
    ensures ExprValues(ups, k, now).Keys == {":updatedAt"} + set i | 1 <= i <= k :: ValuePlaceholder(i)
    ensures ExprValues(ups, k, now)[":updatedAt"] == Str(now)
    ensures forall i :: 1 <= i <= k ==> ExprValues(ups, k, now)[ValuePlaceholder(i)] == ups[i - 1].1
  {
    ExprValuesKeys(ups, k, now);
    ExprValuesAt(ups, k, now);
  }

  lemma {:induction false} ExprValuesKeys(ups: seq<(Attr, Value)>, k: nat, now: string)
    requires k <= |ups|
    ensures ExprValues(ups, k, now).Keys == {":updatedAt"} + set i | 1 <= i <= k :: ValuePlaceholder(i)
  {
    if k > 0 {
      ExprValuesKeys(ups, k - 1, now);
      assert ExprValues(ups, k, now).Keys == ExprValues(ups, k - 1, now).Keys + {ValuePlaceholder(k)};
      PlaceholdersNumbered(k);
    }
  }

  lemma {:induction false} ExprValuesAt(ups: seq<(Attr, Value)>, k: nat, now: string)
    requires k <= |ups|
    ensures ":updatedAt" in ExprValues(ups, k, now) && ExprValues(ups, k, now)[":updatedAt"] == Str(now)
    ensures forall i :: 1 <= i <= k ==>
              ValuePlaceholder(i) in ExprValues(ups, k, now) &&
              ExprValues(ups, k, now)[ValuePlaceholder(i)] == ups[i - 1].1
  {
    if k > 0 {
      ExprValuesAt(ups, k - 1, now);
      PlaceholdersDistinct(k, k);
      forall i | 1 <= i < k ensures ValuePlaceholder(i) != ValuePlaceholder(k) {
        PlaceholdersDistinct(i, k);
      }
    }
  }

  /** How the store carries out the first `k` assignments of `n`: the i-th
      sets the attribute `names[#fi]` to `values[:vi]`; a placeholder
      missing from a map is refused (`None`). */
  function AssignAll(rec: Record, names: map<string, Attr>, values: map<string, Value>, k: nat): Option<Record> {
    if k == 0 then Some(rec)
    else
      var before := AssignAll(rec, names, values, k - 1);
      if before.Some? && NamePlaceholder(k) in names && ValuePlaceholder(k) in values then
        Some(SetField(before.value, names[NamePlaceholder(k)], values[ValuePlaceholder(k)]))
      else None
  }

  /** How the store carries out `UpdateExpression(n)` on a record. */
  function ExecuteSet(rec: Record, names: map<string, Attr>, values: map<string, Value>, n: nat): Option<Record> {
    var applied := AssignAll(rec, names, values, n);
    if applied.Some? && "#updatedAt" in names && ":updatedAt" in values then
      Some(SetField(applied.value, names["#updatedAt"], values[":updatedAt"]))
    else None
  }

  lemma {:induction false} AssignAllOverlay(rec: Record, ups: seq<(Attr, Value)>, now: string, k: nat)
    requires k <= |ups|
    ensures AssignAll(rec, ExprNames(ups, |ups|), ExprValues(ups, |ups|, now), k) == Some(Overlay(rec, ups[..k]))
  {
    if k > 0 {
      AssignAllOverlay(rec, ups, now, k - 1);
      ExprNamesSpec(ups, |ups|);
      ExprValuesSpec(ups, |ups|, now);
      assert ups[..k][..k - 1] == ups[..k - 1];
    }
  }

  /** The expression updateItem builds does what updateItem means: the
      store sets every supplied field to its new value and `updatedAt` to
      `now`, and leaves the record otherwise as it was. */
  lemma UpdateExpressionMeaning(rec: Record, ups: seq<(Attr, Value)>, now: string)
    ensures ExecuteSet(rec, ExprNames(ups, |ups|), ExprValues(ups, |ups|, now), |ups|) ==
              Some(SetField(Overlay(rec, ups), UpdatedAt, Str(now)))
  {
    AssignAllOverlay(rec, ups, now, |ups|);
    assert ups[..|ups|] == ups;
    ExprNamesSpec(ups, |ups|);
    ExprValuesSpec(ups, |ups|, now);
  }

  // ---------------------------------------------------------------------
  // mapItem

  /** `${MEDIA_BASE_URL.replace(/\/+$/, '')}/${imageKey.replace(/^\/+/, '')}` */
  function MediaUrl(base: string, key: string): string {
    StripTrailing(base, '/') + "/" + StripLeading(key, '/')
  }

  /** mapItem adds an image URL when a media base is configured and the
      item has an image key but no image URL. */
  predicate NeedsImageUrl(item: Record, mediaBase: string) {
    mediaBase != "" && Truthy(item.imageKey) && !Truthy(item.imageUrl)
  }

  /** mapItem(item) with MEDIA_BASE_URL `mediaBase`; `None` is the
      `TypeError` of calling `replace` on an image key that is not text. */
  function MapItem(item: Record, mediaBase: string): Option<Record> {
    if !NeedsImageUrl(item, mediaBase) then Some(item)
    else if item.imageKey.Str? then Some(item.(imageUrl := Str(MediaUrl(mediaBase, item.imageKey.s))))
    else None
  }

  /** mapItem changes nothing but the image URL, which it sets exactly when
      it is missing and both a media base and an image key are there; it
      throws only for an image key that is not text, so never for a key as
      the service stores it. */
  lemma MapItemSpec(item: Record, mediaBase: string)
    ensures MapItem(item, mediaBase).None? <==> NeedsImageUrl(item, mediaBase) && !item.imageKey.Str?
    ensures StoredImageKey(item.imageKey) ==> MapItem(item, mediaBase).Some?
    ensures MapItem(item, mediaBase).Some? ==>
              var r := MapItem(item, mediaBase).value;
              (forall a :: a != ImageUrl ==> Field(r, a) == Field(item, a)) &&
              (NeedsImageUrl(item, mediaBase) ==> r.imageUrl == Str(MediaUrl(mediaBase, item.imageKey.s))) &&
              (!NeedsImageUrl(item, mediaBase) ==> r == item)
  {
    if !NeedsImageUrl(item, mediaBase) {
      assert MapItem(item, mediaBase) == Some(item);
    } else if item.imageKey.Str? {
      var r := item.(imageUrl := Str(MediaUrl(mediaBase, item.imageKey.s)));
      assert MapItem(item, mediaBase) == Some(r);
      forall a | a != ImageUrl ensures Field(r, a) == Field(item, a) {
      }
    } else {
      assert MapItem(item, mediaBase) == None;
      assert Truthy(item.imageKey);
    }
  }

  /** Mapping an item a second time changes nothing. */
  lemma MapItemIdempotent(item: Record, mediaBase: string)
    requires MapItem(item, mediaBase).Some?
    ensures MapItem(MapItem(item, mediaBase).value, mediaBase) == MapItem(item, mediaBase)
  {
    if NeedsImageUrl(item, mediaBase) {
      var url := MediaUrl(mediaBase, item.imageKey.s);
      assert url[|StripTrailing(mediaBase, '/')|] == '/';
    }
  }

  /** Exactly one '/' joins the media base and the key: the base loses its
      trailing '/' characters and the key its leading ones. */
  lemma MediaUrlSeam(base: string, key: string)
    ensures var u, b := MediaUrl(base, key), StripTrailing(base, '/');
            |b| < |u| && u[..|b|] == b && IsPrefix(b, base) && u[|b|] == '/' &&
            (|b| == 0 || u[|b| - 1] != '/') &&
            (|b| + 1 == |u| || u[|b| + 1] != '/')
  {
    var b, k := StripTrailing(base, '/'), StripLeading(key, '/');
    var u := MediaUrl(base, key);
    assert u == b + "/" + k;
    assert |b| + 1 < |u| ==> u[|b| + 1] == k[0];
  }

  // ---------------------------------------------------------------------
  // createUploadUrl

  /** The upload settings: MEDIA_PREFIX, MEDIA_BASE_URL, BUCKET_NAME and
      AWS_REGION. */
  datatype Media = Media(prefix: string, baseUrl: string, bucket: string, region: string)

  /** What is handed to the URL signer for a `putObject`. */
  datatype SignParams = SignParams(bucket: string, key: string, contentType: Value, expires: nat, acl: string)

  /** The answer of createUploadUrl. */
  datatype UploadTicket = UploadTicket(uploadUrl: string, objectKey: string, publicUrl: string)

  const UploadExpiry: nat := 300
  const DefaultContentType := "application/octet-stream"
  const PublicRead := "public-read"

  /** `${prefix}/${id}/`, with the prefix's trailing '/' characters dropped */
  function KeyDir(prefix: string, id: string): string {
    StripTrailing(prefix, '/') + "/" + id + "/"
  }

  /** `${Date.now()}-${hash}-${safeName}` */
  function KeyLeaf(millis: nat, hash: string, safeName: string): string {
    NatToString(millis) + "-" + hash + "-" + safeName
  }

  function PublicUrl(media: Media, key: string): string {
    if media.baseUrl != "" then StripTrailing(media.baseUrl, '/') + "/" + key
    else "https://" + media.bucket + ".s3." + media.region + ".amazonaws.com/" + key
  }

  /** createUploadUrl(id, filename, contentType) at time `millis` with the
      four random bytes `random`; `sign` stands for the signer, which
      turns the request into a URL. A file name that is truthy but not
      text makes `path.extname` throw. */
  function CreateUploadUrl(media: Media, id: string, filename: Value, contentType: Value,
                           millis: nat, random: seq<byte>, sign: SignParams -> string): (r: Result<UploadTicket, Failure>)
    requires |random| == 4
    ensures id == "" ==> r == Err(MissingId)
    ensures id != "" && !Truthy(filename) ==> r == Err(FilenameRequired)
    ensures id != "" && Truthy(filename) && !filename.Str? ==> r == Err(Crash)
    ensures r.Ok? ==> filename.Str?
    ensures r.Ok? ==>
              var key := KeyDir(media.prefix, id) + KeyLeaf(millis, HexEncode(random), SanitizeFilename(filename.s));
              var ct := if Truthy(contentType) then contentType else Str(DefaultContentType);
              r.value == UploadTicket(sign(SignParams(media.bucket, key, ct, UploadExpiry, PublicRead)),
                                      key, PublicUrl(media, key))
  {
    if id == "" then Err(MissingId)
    else if !Truthy(filename) then Err(FilenameRequired)
    else if !filename.Str? then Err(Crash)
    else
      var safeName := SanitizeFilename(filename.s);
      var hash := HexEncode(random);
      var key := KeyDir(media.prefix, id) + KeyLeaf(millis, hash, safeName);
      var params := SignParams(media.bucket, key,
                               if Truthy(contentType) then contentType else Str(DefaultContentType),
                               UploadExpiry, PublicRead);
      Ok(UploadTicket(sign(params), key, PublicUrl(media, key)))
  }

  /** The object key is the item's folder under the prefix followed by one
      file name: the decimal time, eight hexadecimal digits and the safe
      name, joined by '-', holding no '/'. */
  lemma UploadKeyShape(prefix: string, id: string, millis: nat, random: seq<byte>, name: string)
    requires |random| == 4
    ensures var dir := KeyDir(prefix, id);
            var hash := HexEncode(random);
            var leaf := KeyLeaf(millis, hash, SanitizeFilename(name));
            dir == StripTrailing(prefix, '/') + "/" + id + "/" &&
            (StripTrailing(prefix, '/') == [] || StripTrailing(prefix, '/')[|StripTrailing(prefix, '/')| - 1] != '/') &&
            |hash| == 8 && (forall i :: 0 <= i < 8 ==> IsHexDigit(hash[i])) &&
            (forall i :: 0 <= i < |leaf| ==> leaf[i] != '/')
  {
    SanitizeFilenameNoSlash(name);
    LeafNoSlash(NatToString(millis), HexEncode(random), SanitizeFilename(name));
  }

  lemma LeafNoSlash(t: string, hash: string, safe: string)
    requires forall i :: 0 <= i < |t| ==> IsDigit(t[i])
    requires forall i :: 0 <= i < |hash| ==> IsHexDigit(hash[i])
    requires forall i :: 0 <= i < |safe| ==> safe[i] != '/'
    ensures var leaf := t + "-" + hash + "-" + safe; forall i :: 0 <= i < |leaf| ==> leaf[i] != '/'
  {
    var leaf := t + "-" + hash + "-" + safe;
    forall i | 0 <= i < |leaf| ensures leaf[i] != '/' {
      if i < |t| {
        assert leaf[i] == t[i];
      } else if i == |t| || i == |t| + 1 + |hash| {
        assert leaf[i] == '-';
      } else if i < |t| + 1 + |hash| {
        assert leaf[i] == hash[i - |t| - 1];
      } else {
        assert leaf[i] == safe[i - |t| - 2 - |hash|];
      }
    }
  }

  /** The public URL ends with '/' and the object key. */
  lemma PublicUrlEndsWithKey(media: Media, key: string)
    ensures IsSuffix("/" + key, PublicUrl(media, key))
  {
    var u := PublicUrl(media, key);
    if media.baseUrl != "" {
      assert u == StripTrailing(media.baseUrl, '/') + ("/" + key);
    } else {
      var host := "https://" + media.bucket + ".s3." + media.region + ".amazonaws.com";
      assert u == host + ("/" + key);
    }
  }
}
