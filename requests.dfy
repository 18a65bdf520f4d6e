/** The request side of the create and update handlers: what a JSON body may
    hold, the field checks in the order the handlers make them, and the two
    ways the handlers turn the `tags` list into tag names. */
module Requests {
  import opened TagNormalizer

  datatype Option<+T> = None | Some(value: T)

  /** A JSON value as the handlers see it. `JOther` is a number, a boolean or
      an object: the handlers never look inside one, they only reject it. */
  datatype Json = JNull | JStr(s: string) | JList(items: seq<Json>) | JOther

  /** What `request.get_json(silent=True)` yields: nothing (no body, not
      JSON, or the JSON `null`), an object, or some other JSON value, of
      which only its Python truthiness matters. */
  datatype Body = NoJson | Object(fields: map<string, Json>) | NonObject(truthy: bool)

  /** The validated fields of a request. */
  datatype Fields = Fields(title: string, content: string, category: Option<string>, tags: seq<Json>)

  /** The outcome of checking a request: accepted, rejected with the message
      of a 400 response, or an exception the handler does not catch. */
  datatype Checked<+T> = Accepted(value: T) | Rejected(message: string) | Raised

  /** The wording of the 400 messages, which differs between the handlers. */
  datatype Wording = Wording(title: string, content: string, tags: string)

  const CreateWording := Wording("Must be valid title", "Must have valid content", "tag must be a list")
  const UpdateWording := Wording("Must have title", "Must have content", "tags must be a list")

  const MaxTitleLength := 200
  const MaxContentLength := 10000
  /** The update handler keeps only this many entries of the tag list. */
  const MaxUpdateTags := 10

  /** `data.get(key)`: a missing key reads as `None`. */
  function Get(fields: map<string, Json>, key: string): Json {
    if key in fields then fields[key] else JNull
  }

  /** `data.get("tags", [])`: a missing key reads as the empty list. */
  function GetTags(fields: map<string, Json>): Json {
    if "tags" in fields then fields["tags"] else JList([])
  }

  /** Passes `if not v or not isinstance(v, str)`. */
  predicate IsNonEmptyString(v: Json) { v.JStr? && v.s != [] }

  /** The four field checks, one predicate each. */
  predicate TitleOk(fields: map<string, Json>) { IsNonEmptyString(Get(fields, "title")) }
  predicate ContentOk(fields: map<string, Json>) { IsNonEmptyString(Get(fields, "content")) }
  predicate CategoryOk(fields: map<string, Json>) { Get(fields, "category").JNull? || Get(fields, "category").JStr? }
  predicate TagsOk(fields: map<string, Json>) { GetTags(fields).JList? }

  /** The order-free statement of what both handlers accept. */
  predicate WellFormed(fields: map<string, Json>) {
    TitleOk(fields) && ContentOk(fields) && CategoryOk(fields) && TagsOk(fields)
  }

  /** The four field checks, in the handlers' order, first failure wins. */
  function CheckFields(fields: map<string, Json>, wording: Wording): (r: Checked<Fields>)
    ensures !r.Raised?
    ensures r.Accepted? <==> WellFormed(fields)
    ensures r.Rejected? ==> r.message in {wording.title, wording.content, "Category must be a string", wording.tags}
    // The first failing check decides the message: title, content, category, tags.
    ensures !TitleOk(fields) ==> r == Rejected(wording.title)
    ensures TitleOk(fields) && !ContentOk(fields) ==> r == Rejected(wording.content)
    ensures TitleOk(fields) && ContentOk(fields) && !CategoryOk(fields) ==> r == Rejected("Category must be a string")
    ensures TitleOk(fields) && ContentOk(fields) && CategoryOk(fields) && !TagsOk(fields) ==> r == Rejected(wording.tags)
    ensures r.Accepted? ==>
      && r.value.title == Get(fields, "title").s && r.value.title != []
      && r.value.content == Get(fields, "content").s && r.value.content != []
      && r.value.category == (if Get(fields, "category").JStr? then Some(Get(fields, "category").s) else None)
      && r.value.tags == GetTags(fields).items
  {
    var title := Get(fields, "title");
    var content := Get(fields, "content");
    var category := Get(fields, "category");
    var tags := GetTags(fields);
    if !IsNonEmptyString(title) then Rejected(wording.title)
    else if !IsNonEmptyString(content) then Rejected(wording.content)
    else if !(category.JNull? || category.JStr?) then Rejected("Category must be a string")
    else if !tags.JList? then Rejected(wording.tags)
    else Accepted(Fields(title.s, content.s, if category.JStr? then Some(category.s) else None, tags.items))
  }

  /** The create handler's checks: a missing body is a 400, a body that is
      not an object makes `data.get` raise. */
  function ParseCreate(body: Body): (r: Checked<Fields>)
    ensures r.Raised? <==> body.NonObject?
    ensures r.Accepted? <==> body.Object? && WellFormed(body.fields)
    ensures body.NoJson? ==> r == Rejected("Bad request")
    ensures body.Object? ==> r == CheckFields(body.fields, CreateWording)
  {
    match body
    case NoJson => Rejected("Bad request")
    case NonObject(_) => Raised
    case Object(fields) => CheckFields(fields, CreateWording)
  }

  /** The update handler's body checks: `if not data` also turns away an
      empty object and a falsy non-object value. */
  function ParseUpdate(body: Body): (r: Checked<Fields>)
    ensures r.Raised? <==> body.NonObject? && body.truthy
    ensures r.Accepted? <==> body.Object? && body.fields != map[] && WellFormed(body.fields)
    ensures body.NoJson? || body == Object(map[]) || body == NonObject(false) ==> r == Rejected("Bad request")
    ensures body.Object? && body.fields != map[] ==> r == CheckFields(body.fields, UpdateWording)
  {
    match body
    case NoJson => Rejected("Bad request")
    case NonObject(truthy) => if truthy then Raised else Rejected("Bad request")
    case Object(fields) => if fields == map[] then Rejected("Bad request") else CheckFields(fields, UpdateWording)
  }

  /** The tag list the create handler keeps, as a function: string entries
      normalized, in order, everything else dropped. */
  function CleanedTags(items: seq<Json>): (r: seq<string>)
    ensures |r| <= |items|
    ensures forall k :: 0 <= k < |r| ==> IsNormalized(r[k])
  {
    if items == [] then []
    else
      var last := items[|items| - 1];
      CleanedTags(items[..|items| - 1]) + (if last.JStr? then [Normalize(last.s)] else [])
  }

  /** Every kept name comes from some string entry. */
  lemma {:induction false} CleanedTagsFrom(items: seq<Json>, name: string)
    requires name in CleanedTags(items)
    ensures exists k :: 0 <= k < |items| && items[k].JStr? && Normalize(items[k].s) == name
  {
    var init := items[..|items| - 1];
    var last := items[|items| - 1];
    assert CleanedTags(items) == CleanedTags(init) + (if last.JStr? then [Normalize(last.s)] else []);
    if name in CleanedTags(init) {
      CleanedTagsFrom(init, name);
      var k :| 0 <= k < |init| && init[k].JStr? && Normalize(init[k].s) == name;
      assert items[k] == init[k];
    } else {
      assert items[|items| - 1].JStr? && Normalize(items[|items| - 1].s) == name;
    }
  }

  /** Every string entry is kept, normalized. */
  lemma {:induction false} CleanedTagsKeeps(items: seq<Json>, k: int)
    requires 0 <= k < |items| && items[k].JStr?
    ensures Normalize(items[k].s) in CleanedTags(items)
  {
    var init := items[..|items| - 1];
    var last := items[|items| - 1];
    assert CleanedTags(items) == CleanedTags(init) + (if last.JStr? then [Normalize(last.s)] else []);
    if k < |init| {
      assert init[k] == items[k];
      CleanedTagsKeeps(init, k);
    }
  }

  /** A name is kept exactly when some string entry normalizes to it. */
  lemma CleanedTagsMembers(items: seq<Json>, name: string)
    ensures name in CleanedTags(items) <==>
      exists k :: 0 <= k < |items| && items[k].JStr? && Normalize(items[k].s) == name
  {
    if name in CleanedTags(items) {
      CleanedTagsFrom(items, name);
    }
    if exists k :: 0 <= k < |items| && items[k].JStr? && Normalize(items[k].s) == name {
      var k :| 0 <= k < |items| && items[k].JStr? && Normalize(items[k].s) == name;
      CleanedTagsKeeps(items, k);
    }
  }

  /** Entries that are all strings are all kept, one name per entry. */
  lemma {:induction false} CleanedTagsOfStrings(items: seq<Json>)
    requires forall k :: 0 <= k < |items| ==> items[k].JStr?
    ensures |CleanedTags(items)| == |items|
    ensures forall k :: 0 <= k < |items| ==> CleanedTags(items)[k] == Normalize(items[k].s)
  {
    if items != [] {
      var init := items[..|items| - 1];
      CleanedTagsOfStrings(init);
      assert CleanedTags(items) == CleanedTags(init) + [Normalize(items[|items| - 1].s)];
      forall k | 0 <= k < |items|
        ensures CleanedTags(items)[k] == Normalize(items[k].s)
      {
        if k < |init| {
          assert init[k] == items[k];
        }
      }
    }
  }

  /** The create handler's cleaning loop: append the normalized form of each
      string entry and skip the rest. */
  method CleanTags(items: seq<Json>) returns (cleaned: seq<string>)
    ensures cleaned == CleanedTags(items)
    ensures forall k :: 0 <= k < |cleaned| ==> IsNormalized(cleaned[k])
  {
    cleaned := [];
    var i := 0;
    while i < |items|
      invariant 0 <= i <= |items|
      invariant cleaned == CleanedTags(items[..i])
    {
      var t := items[i];
      if t.JStr? {
        cleaned := cleaned + [Normalize(t.s)];
      }
      assert items[..i + 1][..i] == items[..i];
      i := i + 1;
    }
    assert items[..i] == items;
  }

  /** `[normalize_tag(t) for t in items]` with no type filter: it raises
      (`None`) on the first entry that is not a string. */
  function NormalizeEach(items: seq<Json>): (r: Option<seq<string>>)
    ensures r.None? <==> exists k :: 0 <= k < |items| && !items[k].JStr?
    ensures r.Some? ==> |r.value| == |items|
    ensures r.Some? ==> forall k :: 0 <= k < |items| ==> r.value[k] == Normalize(items[k].s)
  {
    if items == [] then Some([])
    else if !items[0].JStr? then None
    else
      match NormalizeEach(items[1..])
      case None => None
      case Some(rest) => Some([Normalize(items[0].s)] + rest)
  }

  /** The update handler's tag names: the first ten entries, normalized. */
  function UpdateTagNames(items: seq<Json>): (r: Option<seq<string>>)
    ensures r.None? <==> exists k :: 0 <= k < |items| && k < MaxUpdateTags && !items[k].JStr?
    ensures r.Some? ==> |r.value| == if |items| < MaxUpdateTags then |items| else MaxUpdateTags
    ensures r.Some? ==> forall k :: 0 <= k < |r.value| ==> r.value[k] == Normalize(items[k].s)
  {
    var head := if |items| < MaxUpdateTags then items else items[..MaxUpdateTags];
    assert forall k :: 0 <= k < |head| ==> head[k] == items[k];
    NormalizeEach(head)
  }

  /** Everything the update handler checks before it touches a table, in its
      order: the fields, then the tag names (which raise on a non-string
      among the first ten), then the two length caps. */
  function CheckUpdate(body: Body): (r: Checked<(Fields, seq<string>)>)
    ensures r.Accepted? ==> ParseUpdate(body).Accepted? && ParseUpdate(body).value == r.value.0
    ensures r.Accepted? ==> |r.value.0.title| <= MaxTitleLength && |r.value.0.content| <= MaxContentLength
    ensures r.Accepted? ==> UpdateTagNames(r.value.0.tags) == Some(r.value.1)
    ensures r.Accepted? ==> |r.value.1| <= MaxUpdateTags && forall k :: 0 <= k < |r.value.1| ==> IsNormalized(r.value.1[k])
    ensures r.Raised? <==> ParseUpdate(body).Raised? || (ParseUpdate(body).Accepted? && UpdateTagNames(ParseUpdate(body).value.tags).None?)
    ensures ParseUpdate(body).Accepted? && UpdateTagNames(ParseUpdate(body).value.tags).Some? ==>
      (r.Accepted? <==> |ParseUpdate(body).value.title| <= MaxTitleLength && |ParseUpdate(body).value.content| <= MaxContentLength)
    ensures ParseUpdate(body).Rejected? ==> r == Rejected(ParseUpdate(body).message)
    ensures ParseUpdate(body).Accepted? && UpdateTagNames(ParseUpdate(body).value.tags).Some? ==>
      var f := ParseUpdate(body).value;
      && (|f.title| > MaxTitleLength ==> r == Rejected("title too long"))
      && (|f.title| <= MaxTitleLength && |f.content| > MaxContentLength ==> r == Rejected("content too long"))
  {
    match ParseUpdate(body)
    case Rejected(m) => Rejected(m)
    case Raised => Raised
    case Accepted(f) =>
      match UpdateTagNames(f.tags)
      case None => Raised
      case Some(names) =>
        if |f.title| > MaxTitleLength then Rejected("title too long")
        else if |f.content| > MaxContentLength then Rejected("content too long")
        else Accepted((f, names))
  }
}
