/** The request handlers of main.go: task status queries (with the
    `sync=1` long poll) and the two task submissions. Every handler draws a
    key from the shared pool, sends one request per upstream call, and
    relays what the upstream answers. The upstream is a script of replies;
    each reply carries the raw body and what decoding it as JSON yields. */
module Proxy {
  import opened Results
  import opened KeyStore
  import opened Keymanager

  /** A JSON value as encoding/json decodes it into `interface{}`. A number
      is whatever float64 the decoder produced, shown as the text that
      encoding it again writes; the conversion itself is not modelled. */
  datatype Json =
    | JNull
    | JBool(b: bool)
    | JNumber(text: string)
    | JString(s: string)
    | JArray(items: seq<Json>)
    | JObject(fields: map<string, Json>)

  /** The result of decoding into a `map[string]interface{}`: a JSON `null`
      decodes without error into a nil map. */
  datatype Decoded = DecodeError | NilMap | Object(fields: map<string, Json>)

  /** One upstream call: either the request could not be made
      (`client.Do` failed), or an answer with status, Content-Type, the raw
      body and, when the body is JSON, its decoded value. */
  datatype Upstream =
    | Unreachable
    | Answer(status: int, contentType: string, raw: string, decoded: Option<Json>)

  /** What a handler writes back: a relayed upstream answer (raw bytes, or
      the decoded value encoded again), or an `http.Error`. */
  datatype Payload = Bytes(raw: string) | Encoded(value: Json)
  datatype Reply =
    | Relayed(status: int, contentType: string, payload: Payload)
    | Failed(status: int, message: string)

  /** The bodies of the two task submissions. */
  datatype TaskBody = TextToModelBody(fields: map<string, Json>) | ImageToModelBody(fileToken: string)

  /** A request sent upstream, with the key in its `Authorization` header. */
  datatype Request =
    | QueryRequest(authorization: string, taskId: string)
    | TaskRequest(authorization: string, body: TaskBody)

  const StatusOK := 200
  const StatusBadRequest := 400
  const StatusInternalServerError := 500

  /** Usage charged per successful submission. */
  const TextToModelWeight := 20
  const ImageToModelWeight := 30

  const TextToModelType := "text_to_model"
  const Running := "running"

  const CreateRequestFailed := "Failed to create request"
  const SendRequestFailed := "Failed to send request"
  const ParseResponseFailed := "Failed to parse response body"
  const ParseRequestFailed := "Failed to parse request body"

  /** Decoding a body into `map[string]interface{}`. */
  function DecodeObject(body: Option<Json>): (d: Decoded)
    ensures d.Object? <==> body.Some? && body.value.JObject?
    ensures d.NilMap? <==> body == Some(JNull)
    ensures d.Object? ==> d.fields == body.value.fields
  {
    match body
    case None => DecodeError
    case Some(JNull) => NilMap
    case Some(JObject(fields)) => Object(fields)
    case Some(_) => DecodeError
  }

  /** `response["data"].(map[string]interface{})`: present only when the
      response is an object whose `data` member is an object. */
  function DataObject(d: Decoded): (data: Option<map<string, Json>>)
    ensures data.Some? <==> d.Object? && "data" in d.fields && d.fields["data"].JObject?
    ensures data.Some? ==> data.value == d.fields["data"].fields
  {
    if d.Object? && "data" in d.fields && d.fields["data"].JObject? then Some(d.fields["data"].fields)
    else None
  }

  /** The continuation test of the long poll: `data.status == "running"`.
      It holds exactly when the answer's body is a JSON object whose `data`
      member is an object whose `status` member is the string "running". */
  predicate StillRunning(u: Upstream): (running: bool)
    ensures running <==>
              && u.Answer? && u.decoded.Some? && u.decoded.value.JObject?
              && "data" in u.decoded.value.fields
              && u.decoded.value.fields["data"].JObject?
              && "status" in u.decoded.value.fields["data"].fields
              && u.decoded.value.fields["data"].fields["status"] == JString(Running)
  {
    && u.Answer?
    && var data := DataObject(DecodeObject(u.decoded));
    && data.Some? && "status" in data.value && data.value["status"] == JString(Running)
  }

  /** What `json.NewEncoder(w).Encode(response)` writes: the decoded map,
      or `null` when decoding produced none. */
  function Reencoded(d: Decoded): (j: Json)
    ensures j.JObject? <==> d.Object?
    ensures d.Object? ==> j.fields == d.fields
    ensures !d.Object? ==> j == JNull
  {
    if d.Object? then JObject(d.fields) else JNull
  }

  /** The outcome of one status query: ask again, or finish with a reply. */
  datatype Step = Again | Finish(reply: Reply)

  /** One pass of `queryTaskHandler` after its key is allocated. Only in
      `sync=1` mode is the body inspected: a body that does not decode, or
      has no `data` object, ends the poll with a 500, and a running task is
      asked about again. Every other answer is relayed with its status. */
  function QueryStep(sync: string, u: Upstream): (s: Step)
    ensures s.Again? <==> sync == "1" && StillRunning(u)
    ensures u.Unreachable? ==> s == Finish(Failed(StatusInternalServerError, SendRequestFailed))
    ensures u.Answer? && sync == "1" ==>
              (s == Finish(Failed(StatusInternalServerError, ParseResponseFailed)) <==>
               DataObject(DecodeObject(u.decoded)).None?)
    ensures u.Answer? && (sync != "1" || !StillRunning(u)) && DataObject(DecodeObject(u.decoded)).Some? ==>
              s == Finish(Relayed(u.status, u.contentType, Encoded(Reencoded(DecodeObject(u.decoded)))))
    ensures u.Answer? && sync != "1" ==>
              s == Finish(Relayed(u.status, u.contentType, Encoded(Reencoded(DecodeObject(u.decoded)))))
  {
    match u
    case Unreachable => Finish(Failed(StatusInternalServerError, SendRequestFailed))
    case Answer(status, contentType, _, decoded) =>
      var d := DecodeObject(decoded);
      if sync == "1" && DataObject(d).None? then Finish(Failed(StatusInternalServerError, ParseResponseFailed))
      else if sync == "1" && StillRunning(u) then Again
      else Finish(Relayed(status, contentType, Encoded(Reencoded(d))))
  }

  /** The position in the script of the answer that ends the query: the
      first one that is not asked about again, or the script's length when
      every answer is. */
  function StopAt(sync: string, script: seq<Upstream>): (stop: nat)
    ensures stop <= |script|
    ensures forall j :: 0 <= j < stop ==> QueryStep(sync, script[j]).Again?
    ensures stop < |script| ==> QueryStep(sync, script[stop]).Finish?
  {
    if script == [] || QueryStep(sync, script[0]).Finish? then 0
    else 1 + StopAt(sync, script[1..])
  }

  /** With `sync=1`, `k` answers saying the task is running followed by one
      that does not make the query end at answer `k`, after `k + 1` calls. */
  lemma PollEndsAfterRunning(script: seq<Upstream>, k: nat)
    requires k < |script|
    requires forall j :: 0 <= j < k ==> StillRunning(script[j])
    requires !StillRunning(script[k])
    ensures StopAt("1", script) == k
  {
  }

  /** Without `sync=1` the first answer always ends the query. */
  lemma SingleQueryWithoutSync(sync: string, script: seq<Upstream>)
    requires sync != "1" && script != []
    ensures StopAt(sync, script) == 0
  {
  }

  /** The status queries sent with the keys `keys`, in order. */
  function Queries(keys: seq<string>, taskId: string): (rs: seq<Request>)
    ensures |rs| == |keys|
    ensures forall j :: 0 <= j < |keys| ==> rs[j] == QueryRequest(keys[j], taskId)
  {
    seq(|keys|, j requires 0 <= j < |keys| => QueryRequest(keys[j], taskId))
  }

  /** One more key used is one more query sent, at the end. */
  lemma QueriesSnoc(keys: seq<string>, key: string, taskId: string)
    ensures Queries(keys + [key], taskId) == Queries(keys, taskId) + [QueryRequest(key, taskId)]
  {
    assert Queries(keys + [key], taskId)[|keys|] == QueryRequest(key, taskId);
  }

  /** `queryTaskHandler`. The recursion of the `sync=1` mode is a loop over
      the scripted answers; each pass allocates a fresh key. The script
      must contain the answer that ends the query: against an upstream that
      reports "running" for ever the handler never returns. */
  method QueryTask(km: KeyManager, taskId: string, sync: string, script: seq<Upstream>)
    returns (reply: Reply, sent: seq<Request>)
    requires km.Valid()
    requires km.validKeys != [] ==> StopAt(sync, script) < |script|
    modifies km`index
    ensures km.Valid()
    ensures km.validKeys == [] ==>
              reply == Failed(StatusInternalServerError, CreateRequestFailed) && sent == [] &&
              km.index == old(km.index)
    ensures km.validKeys != [] ==>
              var calls := StopAt(sync, script) + 1;
              && sent == Queries(Allocations(km.validKeys, old(km.index), calls), taskId)
              && km.index == CursorAfter(old(km.index), |km.validKeys|, calls)
              && reply == QueryStep(sync, script[calls - 1]).reply
  {
    var key := km.AllocateKey();
    if key.Err? {
      return Failed(StatusInternalServerError, CreateRequestFailed), [];
    }
    ghost var keys, start, stop := km.validKeys, old(km.index), StopAt(sync, script);
    ghost var used := [key.value];
    sent := [QueryRequest(key.value, taskId)];
    var i := 0;
    var step := QueryStep(sync, script[0]);
    while step.Again?
      invariant 0 <= i <= stop < |script|
      invariant step == QueryStep(sync, script[i])
      invariant km.Valid() && km.validKeys == keys
      invariant km.index == CursorAfter(start, |keys|, i + 1)
      invariant used == Allocations(keys, start, i + 1)
      invariant sent == Queries(used, taskId)
      decreases stop - i
    {
      assert i != stop;
      i := i + 1;
      key := km.AllocateKey();
      QueriesSnoc(used, key.value, taskId);
      used := used + [key.value];
      sent := sent + [QueryRequest(key.value, taskId)];
      step := QueryStep(sync, script[i]);
    }
    assert i == stop;
    reply := step.reply;
  }

  /** What a submission relays: the upstream's status, Content-Type and body
      bytes unchanged, or a 500 when the upstream could not be reached. */
  function SubmitReply(u: Upstream): (r: Reply)
    ensures u.Unreachable? ==> r == Failed(StatusInternalServerError, SendRequestFailed)
    ensures u.Answer? ==> r.Relayed? && r.status == u.status && r.contentType == u.contentType
    ensures u.Answer? ==> r.payload == Bytes(u.raw)
  {
    match u
    case Unreachable => Failed(StatusInternalServerError, SendRequestFailed)
    case Answer(status, contentType, raw, _) => Relayed(status, contentType, Bytes(raw))
  }

  /** The usage accounting after a submission: the weight goes to the key
      only when the upstream answered 200; the accounting error of a failed
      UPDATE is dropped. */
  function Charge(t: Table, key: string, weight: int, u: Upstream, usageFault: bool): (r: Table)
    ensures Keys(r) == Keys(t)
    ensures !(u.Answer? && u.status == StatusOK) ==> r == t
  {
    if u.Answer? && u.status == StatusOK && !usageFault then AddUsage(t, key, weight) else t
  }

  /** A submission charges exactly its weight to the key it used when the
      upstream answered 200, nothing otherwise, and never touches another
      key's counter. */
  lemma ChargeOnlyOnSuccess(t: Table, key: string, weight: int, u: Upstream, other: string)
    requires other in Keys(t)
    ensures UsageOf(t, other).Some? && UsageOf(Charge(t, key, weight, u, false), other).Some?
    ensures UsageOf(Charge(t, key, weight, u, false), other).value ==
            UsageOf(t, other).value + (if other == key && u.Answer? && u.status == StatusOK then weight else 0)
  {
    UsageOfFinds(t, other);
    AddUsageCharges(t, key, weight, other);
  }

  /** `requestBody["type"] = kind`: the member is set, overwriting any
      previous value, and every other member is kept. */
  function InjectType(fields: map<string, Json>, kind: string): (r: map<string, Json>)
    ensures r.Keys == fields.Keys + {"type"}
    ensures r["type"] == JString(kind)
    ensures forall k :: k in fields && k != "type" ==> r[k] == fields[k]
  {
    fields["type" := JString(kind)]
  }

  /** What becomes of the client's body in `textToModelHandler`: refused
      with a 400, forwarded with its type set, or, as the handler is written,
      a write into a nil map. */
  datatype Prepared = Rejected | Forward(fields: map<string, Json>) | NilMapWrite

  /** The body handling as main.go writes it. A `null` body decodes without
      error into a nil map, and `requestBody["type"] = ...` then panics. */
  function PrepareTextBodyAsWritten(d: Decoded): (p: Prepared)
    ensures p.NilMapWrite? <==> d.NilMap?
  {
    match d
    case DecodeError => Rejected
    case NilMap => NilMapWrite
    case Object(fields) => Forward(InjectType(fields, TextToModelType))
  }

  /** A `null` request body crashes the handler as written. */
  lemma NullBodyPanics()
    ensures PrepareTextBodyAsWritten(DecodeObject(Some(JNull))) == NilMapWrite
  {
  }

  /** The body handling with the nil map refused like any other body that
      is not a JSON object; objects are treated as before. */
  function PrepareTextBody(d: Decoded): (p: Prepared)
    ensures !p.NilMapWrite?
    ensures p.Rejected? <==> !d.Object?
    ensures p.Forward? ==> p.fields.Keys == d.fields.Keys + {"type"}
    ensures p.Forward? ==> p.fields["type"] == JString(TextToModelType)
    ensures p.Forward? ==> forall k :: k in d.fields && k != "type" ==> p.fields[k] == d.fields[k]
    ensures !d.NilMap? ==> p == PrepareTextBodyAsWritten(d)
  {
    if d.Object? then Forward(InjectType(d.fields, TextToModelType)) else Rejected
  }

  /** `textToModelHandler`. The key is allocated before the body is read, so
      a rejected body still moves the cursor. */
  method TextToModel(km: KeyManager, body: Option<Json>, upstream: Upstream, usageFault: bool)
    returns (reply: Reply, sent: Option<Request>)
    requires km.Valid()
    modifies km`index, km`table
    ensures km.Valid() && km.validKeys == old(km.validKeys)
    ensures km.validKeys == [] ==>
              reply == Failed(StatusInternalServerError, CreateRequestFailed) && sent == None &&
              km.index == old(km.index) && km.table == old(km.table)
    ensures km.validKeys != [] ==> km.index == NextIndex(old(km.index), |km.validKeys|)
    ensures km.validKeys != [] && PrepareTextBody(DecodeObject(body)).Rejected? ==>
              reply == Failed(StatusBadRequest, ParseRequestFailed) && sent == None &&
              km.table == old(km.table)
    ensures km.validKeys != [] && PrepareTextBody(DecodeObject(body)).Forward? ==>
              var key := km.validKeys[km.index];
              && sent == Some(TaskRequest(key, TextToModelBody(PrepareTextBody(DecodeObject(body)).fields)))
              && reply == SubmitReply(upstream)
              && km.table == Charge(old(km.table), key, TextToModelWeight, upstream, usageFault)
  {
    var key := km.AllocateKey();
    if key.Err? {
      return Failed(StatusInternalServerError, CreateRequestFailed), None;
    }
    var prepared := PrepareTextBody(DecodeObject(body));
    if prepared.Rejected? {
      return Failed(StatusBadRequest, ParseRequestFailed), None;
    }
    sent := Some(TaskRequest(key.value, TextToModelBody(prepared.fields)));
    if upstream.Answer? && upstream.status == StatusOK {
      var _ := km.IncreaseUsage(key.value, TextToModelWeight, usageFault);
    }
    reply := SubmitReply(upstream);
  }

  /** `imageToModelHandler`: the body names the client's `file_token`. */
  method ImageToModel(km: KeyManager, fileToken: string, upstream: Upstream, usageFault: bool)
    returns (reply: Reply, sent: Option<Request>)
    requires km.Valid()
    modifies km`index, km`table
    ensures km.Valid() && km.validKeys == old(km.validKeys)
    ensures km.validKeys == [] ==>
              reply == Failed(StatusInternalServerError, CreateRequestFailed) && sent == None &&
              km.index == old(km.index) && km.table == old(km.table)
    ensures km.validKeys != [] ==> km.index == NextIndex(old(km.index), |km.validKeys|)
    ensures km.validKeys != [] ==>
              var key := km.validKeys[km.index];
              && sent == Some(TaskRequest(key, ImageToModelBody(fileToken)))
              && reply == SubmitReply(upstream)
              && km.table == Charge(old(km.table), key, ImageToModelWeight, upstream, usageFault)
  {
    var key := km.AllocateKey();
    if key.Err? {
      return Failed(StatusInternalServerError, CreateRequestFailed), None;
    }
    sent := Some(TaskRequest(key.value, ImageToModelBody(fileToken)));
    if upstream.Answer? && upstream.status == StatusOK {
      var _ := km.IncreaseUsage(key.value, ImageToModelWeight, usageFault);
    }
    reply := SubmitReply(upstream);
  }
}
