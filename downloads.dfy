/** The download watcher: the table of downloads not yet seen complete,
    keyed by download id, and the three download event handlers that update
    it. A download that reaches the state "complete" leaves the table and
    yields one capture request for `createGyazo`. */
module Downloads {
  import opened JsValues
  import opened JsStrings

  /** URLs this long or longer are not tracked (large data URLs among them). */
  const MaxUrlLength: nat := 1024

  /** Blob URLs of the image host's own origin: the extension's own uploads. */
  const OwnBlobPrefix: string := "blob:https://gyazo.com"

  /** The `downloadItems` map. Its keys are the ids the items carried when
      they were stored; a JavaScript `Map` compares such primitive keys by value. */
  type Table = map<Value, Item>

  /** The item of `onCreated` is not tracked: every URL of 1024 characters
      or more, whatever its scheme, and below that exactly the URLs that
      begin with the own blob prefix. */
  function Rejected(url: string): (r: bool)
    ensures |url| >= MaxUrlLength ==> r
    ensures |url| < MaxUrlLength ==>
      (r <==> |OwnBlobPrefix| <= |url| && forall i :: 0 <= i < |OwnBlobPrefix| ==> url[i] == OwnBlobPrefix[i])
  {
    |url| >= MaxUrlLength || StartsWith(url, OwnBlobPrefix)
  }

  /** Every stored item is stored under its own `id`. */
  ghost predicate KeyedById(t: Table) {
    forall k :: k in t ==> Field(t[k], "id") == k
  }

  /** The table after `onCreated(item)`. */
  function Created(t: Table, item: Item): (r: Table)
    requires Field(item, "url").Str?
    ensures Rejected(Field(item, "url").s) ==> r == t
    ensures !Rejected(Field(item, "url").s) ==>
      r.Keys == t.Keys + {Field(item, "id")} && r[Field(item, "id")] == item
    ensures forall k :: k in t && k != Field(item, "id") ==> k in r && r[k] == t[k]
    ensures KeyedById(t) ==> KeyedById(r)
  {
    if Rejected(Field(item, "url").s) then t
    else t[Field(item, "id") := item]
  }

  /** The table after `onDeterminingFilename(partial)`: the partial item is
      spread over the stored one and stored again under the merged id. */
  function FilenameDetermined(t: Table, partial: Item): (r: Table)
    ensures Field(partial, "id") !in t ==> r == t
    ensures KeyedById(t) ==> KeyedById(r)
    ensures KeyedById(t) ==> r.Keys == t.Keys
    ensures KeyedById(t) ==> forall k :: k in t && k != Field(partial, "id") ==> r[k] == t[k]
    ensures KeyedById(t) && Field(partial, "id") in t ==>
      var (prev, next) := (t[Field(partial, "id")], r[Field(partial, "id")]);
      && next.Keys == prev.Keys + partial.Keys
      && (forall f :: f in partial ==> next[f] == partial[f])
      && (forall f :: f in prev && f !in partial ==> next[f] == prev[f])
  {
    var id := Field(partial, "id");
    if id !in t then t
    else
      var merged := Spread(t[id], partial);
      t[Field(merged, "id") := merged]
  }

  /** One entry of the `onChanged` delta: the field's new and old value. */
  datatype Change = Change(current: Value, previous: Value)

  /** The delta with each entry replaced by its new value: an object with the
      same property names, holding only the `current` halves. */
  function Currents(delta: map<string, Change>): (r: Item)
    ensures r.Keys == delta.Keys
    ensures forall f :: f in delta ==> r[f] == delta[f].current
  {
    map f | f in delta :: delta[f].current
  }

  /** The argument of `createGyazo`; `None` is an absent property. */
  datatype CaptureRequest = CaptureRequest(description: Option<string>, title: Option<string>, url: Value)

  /** The table after an event, and the capture it starts, if any. */
  datatype Step = Step(table: Table, capture: Option<CaptureRequest>)

  /** The stored item after an `onChanged` for a tracked id. */
  function MergeChanges(prev: Item, delta: map<string, Change>): (merged: Item)
    ensures merged.Keys == prev.Keys + delta.Keys
    ensures forall f :: f in delta ==> merged[f] == delta[f].current
    ensures forall f :: f in prev && f !in delta ==> merged[f] == prev[f]
  {
    Spread(prev, Currents(delta))
  }

  /** `onChanged({ id, ...delta })`; `fileSizeText` is the `filesize` formatter.
      `delta` is the rest of the event object, so it has no `id` property. */
  function Changed(t: Table, id: Value, delta: map<string, Change>, fileSizeText: Value -> string): (r: Step)
    requires "id" !in delta
    ensures id !in t ==> r == Step(t, None)
    ensures KeyedById(t) ==> KeyedById(r.table)
    ensures KeyedById(t) ==> r.table.Keys == t.Keys - (if r.capture.Some? then {id} else {})
    ensures KeyedById(t) ==> forall k :: k in t && k != id ==> r.table[k] == t[k]
    ensures KeyedById(t) && id in t ==>
      var merged := MergeChanges(t[id], delta);
      && (r.capture.Some? <==> Field(merged, "state") == Str("complete"))
      && (r.capture.None? ==> r.table[id] == merged)
      && (r.capture.Some? ==> r.capture.value == CaptureRequest(
            Some(fileSizeText(Field(merged, "fileSize"))), None, Field(merged, "url")))
  {
    if id !in t then Step(t, None)
    else
      var merged := MergeChanges(t[id], delta);
      var stored := t[Field(merged, "id") := merged];
      if Field(merged, "state") != Str("complete") then Step(stored, None)
      else Step(stored - {Field(merged, "id")},
                Some(CaptureRequest(Some(fileSizeText(Field(merged, "fileSize"))), None, Field(merged, "url"))))
  }

  /** Only the `current` half of a change is ever used: two deltas with the
      same new values have the same effect, whatever their old values. */
  lemma ChangedIgnoresPrevious(t: Table, id: Value, d1: map<string, Change>, d2: map<string, Change>,
                               fileSizeText: Value -> string)
    requires "id" !in d1 && d1.Keys == d2.Keys
    requires forall f :: f in d1 ==> d1[f].current == d2[f].current
    ensures Changed(t, id, d1, fileSizeText) == Changed(t, id, d2, fileSizeText)
  {
    assert Currents(d1) == Currents(d2);
  }

  /** A download is captured once: after the capture its id is forgotten, so
      no later event for it changes the table or starts another capture. */
  lemma CapturedOnce(t: Table, id: Value, delta: map<string, Change>, fileSizeText: Value -> string,
                     partial: Item, later: map<string, Change>)
    requires KeyedById(t) && "id" !in delta && "id" !in later
    requires Changed(t, id, delta, fileSizeText).capture.Some?
    requires Field(partial, "id") == id
    ensures var after := Changed(t, id, delta, fileSizeText).table;
      && id !in after
      && FilenameDetermined(after, partial) == after
      && Changed(after, id, later, fileSizeText) == Step(after, None)
  {
  }

  /** A tracked download whose state becomes "complete" starts one capture
      of its URL with its formatted size, and leaves no entry for its id. */
  lemma CompletionCapturesDownload(t: Table, item: Item, previous: Value, fileSizeText: Value -> string)
    requires KeyedById(t) && Field(item, "url").Str? && !Rejected(Field(item, "url").s)
    ensures var id := Field(item, "id");
      var step := Changed(Created(t, item), id, map["state" := Change(Str("complete"), previous)], fileSizeText);
      && step.table == t - {id}
      && step.capture == Some(CaptureRequest(Some(fileSizeText(Field(item, "fileSize"))), None, Field(item, "url")))
  {
    var id := Field(item, "id");
    var delta := map["state" := Change(Str("complete"), previous)];
    var merged := MergeChanges(item, delta);
    assert Field(merged, "fileSize") == Field(item, "fileSize");
    assert Field(merged, "url") == Field(item, "url");
    assert Created(t, item) - {id} == t - {id};
  }

  /** The `downloadItems` map together with its three event handlers. */
  class DownloadTracker {
    var items: Table

    ghost predicate Valid()
      reads this
    {
      KeyedById(items)
    }

    constructor ()
      ensures Valid() && items == map[]
    {
      items := map[];
    }

    /** `chrome.downloads.onCreated`. */
    method OnCreated(item: Item)
      requires Valid() && Field(item, "url").Str?
      modifies this
      ensures Valid()
      ensures items == Created(old(items), item)
    {
      if Rejected(Field(item, "url").s) {
        return;
      }
      items := items[Field(item, "id") := item];
    }

    /** `chrome.downloads.onDeterminingFilename`. */
    method OnDeterminingFilename(partial: Item)
      requires Valid()
      modifies this
      ensures Valid()
      ensures items == FilenameDetermined(old(items), partial)
    {
      var id := Field(partial, "id");
      if id !in items {
        return;
      }
      var merged := Spread(items[id], partial);
      items := items[Field(merged, "id") := merged];
    }

    /** `chrome.downloads.onChanged`; the capture request it returns is the
        call of `createGyazo`. */
    method OnChanged(id: Value, delta: map<string, Change>, fileSizeText: Value -> string)
      returns (capture: Option<CaptureRequest>)
      requires Valid() && "id" !in delta
      modifies this
      ensures Valid()
      ensures Step(items, capture) == Changed(old(items), id, delta, fileSizeText)
    {
      capture := None;
      if id !in items {
        return;
      }
      var merged := MergeChanges(items[id], delta);
      items := items[Field(merged, "id") := merged];
      if Field(merged, "state") != Str("complete") {
        return;
      }
      items := items - {Field(merged, "id")};
      capture := Some(CaptureRequest(Some(fileSizeText(Field(merged, "fileSize"))), None, Field(merged, "url")));
    }
  }
}
