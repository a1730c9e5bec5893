/** The message classifier of `handleNewMessage` in src/App.jsx, applied to
    the value `JSON.parse` returned, and the reading of its payloads as
    `[price, count, amount]` rows. */
module Feed {
  import opened Wrappers
  import opened Json
  import opened Levels

  /** Where `handleNewMessage` sends a parsed message. */
  datatype Route =
    | Ignore                     // returns without touching the book
    | ToSnapshot(payload: Json)  // `setBookSnapshoot(message[1])`
    | ToUpdate(payload: Json)    // `handleUpdate(message[1])`
    | NullMessage                // `message[0]` on a parsed `null` throws

  /** The channel id after the message, and the route it takes. */
  datatype Classified = Classified(chanId: Json, route: Route)

  /** Why handling a message stops: a JavaScript TypeError, or a row whose
      price or amount is not a number. Rows hold numbers only: JavaScript's
      coercion in `amount > 0` and the comparator `asc` on a non-numeric
      price are not modelled. */
  datatype Fault = TypeError | OutsideModel

  /** The channel id in force after the registration check of line 125. */
  function BoundChanId(chanId: Json, message: Json): Json {
    if Truthy(ChanIdOf(message)) then ChanIdOf(message).value else chanId
  }

  /** The check of line 127 lets the message through: arrays always, other
      values only when their key "0" holds the bound channel id. */
  predicate PassesFilter(bound: Json, message: Json) {
    !message.JNull? && (message.JArr? || StrictEquals(At(message, 0), bound))
  }

  /** Lines 125-139: bind a truthy `chanId`, drop what the channel check
      rejects, then try the snapshot shape before the update shape. */
  function Classify(chanId: Json, message: Json): (k: Classified)
    ensures Truthy(ChanIdOf(message)) ==> k.chanId == ChanIdOf(message).value
    ensures !Truthy(ChanIdOf(message)) ==> k.chanId == chanId
    ensures k.route.NullMessage? <==> message.JNull?
    ensures (k.route.ToSnapshot? || k.route.ToUpdate?) ==> PassesFilter(k.chanId, message)
  {
    var bound := BoundChanId(chanId, message);
    if message.JNull? then Classified(bound, NullMessage)
    else if !IsArray(Some(message)) && !StrictEquals(At(message, 0), bound) then Classified(bound, Ignore)
    else
      var payload := At(message, 1);
      if Truthy(payload) && Truthy(At(payload.value, 0)) && IsArray(At(payload.value, 0)) then
        Classified(bound, ToSnapshot(payload.value))
      else if Truthy(payload) && IsArray(payload) && |payload.value.items| == 3 then
        Classified(bound, ToUpdate(payload.value))
      else
        Classified(bound, Ignore)
  }

  /** Arrays are never filtered by channel: their route does not depend on the
      channel id held before them. */
  lemma ArraysNotFiltered(c1: Json, c2: Json, message: Json)
    requires message.JArr?
    ensures Classify(c1, message).route == Classify(c2, message).route
  {
  }

  /** A message that is not an array reaches the book only as an object whose
      key "0" holds a scalar equal to the bound channel id. */
  lemma NonArraysNeedChannelKey(chanId: Json, message: Json)
    requires !message.JArr?
    ensures var k := Classify(chanId, message);
      (k.route.ToSnapshot? || k.route.ToUpdate?) ==>
        && message.JObj? && "0" in message.fields
        && message.fields["0"] == k.chanId
        && !k.chanId.JArr? && !k.chanId.JObj?
  {
    var k := Classify(chanId, message);
    if k.route.ToSnapshot? || k.route.ToUpdate? {
      StrictEqualsMeansSameScalar(At(message, 0), k.chanId);
    }
  }

  /** The channel-registration ack `{"event":"subscribed","chanId":17,...}`
      binds the channel and is otherwise ignored. */
  lemma SubscribedAckBindsChannel(chanId: Json, id: real, extra: map<string, Json>)
    requires id != 0.0
    requires "0" !in extra
    ensures var k := Classify(chanId, JObj(extra["chanId" := JNum(id)]));
      k.chanId == JNum(id) && k.route == Ignore
  {
    var m := extra["chanId" := JNum(id)];
    assert Decimal.NatToString(0) == "0";
    assert "0" !in m;
  }

  /** A message that passes the channel check and whose element 1 starts with
      an array is a snapshot, whatever the payload's length, so a three-row
      snapshot is not mistaken for an update. */
  lemma SnapshotShapeFirst(chanId: Json, message: Json, payload: Json)
    requires PassesFilter(BoundChanId(chanId, message), message)
    requires At(message, 1) == Some(payload)
    requires !payload.JNull? && IsArray(At(payload, 0))
    ensures Classify(chanId, message).route == ToSnapshot(payload)
  {
  }

  /** A message that passes the channel check and whose element 1 is a
      three-element array not starting with an array is an update. */
  lemma UpdateShape(chanId: Json, message: Json, payload: Json)
    requires PassesFilter(BoundChanId(chanId, message), message)
    requires At(message, 1) == Some(payload)
    requires payload.JArr? && |payload.items| == 3 && !payload.items[0].JArr?
    ensures Classify(chanId, message).route == ToUpdate(payload)
  {
  }

  /** Any other element 1 is ignored: none at all, a heartbeat string such as
      "hb", a number, `null`, a boolean, an array that neither starts with an
      array nor has exactly three elements, or an object whose key "0" does
      not hold an array. */
  lemma OtherPayloadsIgnored(chanId: Json, message: Json)
    requires !message.JNull?
    requires var p := At(message, 1);
      || p.None?
      || p.value.JStr? || p.value.JNum? || p.value.JNull? || p.value.JBool?
      || (p.value.JArr? && |p.value.items| != 3 && (p.value.items == [] || !p.value.items[0].JArr?))
      || (p.value.JObj? && !IsArray(At(p.value, 0)))
    ensures Classify(chanId, message).route == Ignore
  {
  }

  /** An object keyed like an array passes the channel check once its key "0"
      holds the bound channel id, and its element 1 is routed like an array
      message's: `{"0": 17, "1": [p, c, a]}` is an update of channel 17. */
  lemma ObjectMessageIsUpdate(id: real, p: real, c: Json, a: real)
    requires id != 0.0
    ensures var payload := JArr([JNum(p), c, JNum(a)]);
      Classify(JNum(id), JObj(map["0" := JNum(id), "1" := payload])).route == ToUpdate(payload)
  {
    assert Decimal.NatToString(0) == "0";
    assert Decimal.NatToString(1) == "1";
  }

  /** `[price, count, amount]` read as a row: index 0 and index 2 must be
      numbers, index 1 is kept as it is, further elements are never read. */
  function DecodeLevel(item: Json): (r: Option<Level>)
    ensures r.Some? <==> item.JArr? && |item.items| >= 3 && item.items[0].JNum? && item.items[2].JNum?
  {
    if item.JArr? && |item.items| >= 3 && item.items[0].JNum? && item.items[2].JNum? then
      Some(Level(item.items[0].n, item.items[1], item.items[2].n))
    else None
  }

  function EncodeLevel(l: Level): Json {
    JArr([JNum(l.price), l.count, JNum(l.amount)])
  }

  /** Reading a row back from its three-element form gives the row. */
  lemma DecodeEncodeLevel(l: Level)
    ensures DecodeLevel(EncodeLevel(l)) == Some(l)
  {
  }

  /** A three-element row is exactly the encoding of what it decodes to. */
  lemma EncodeDecodeLevel(item: Json)
    requires DecodeLevel(item).Some? && |item.items| == 3
    ensures EncodeLevel(DecodeLevel(item).value) == item
  {
    var l := DecodeLevel(item).value;
    assert EncodeLevel(l).items == item.items;
  }

  /** Every item read as a row, or `OutsideModel` if one is not a row. */
  function DecodeRows(items: seq<Json>): (r: Result<seq<Level>, Fault>)
    ensures r.Success? <==> forall i :: 0 <= i < |items| ==> DecodeLevel(items[i]).Some?
    ensures r.Success? ==> |r.value| == |items|
    ensures r.Success? ==> forall i :: 0 <= i < |items| ==> DecodeLevel(items[i]) == Some(r.value[i])
    ensures r.Failure? ==> r.error == OutsideModel
  {
    if items == [] then Success([])
    else
      match (DecodeLevel(items[0]), DecodeRows(items[1..]))
      case (Some(l), Success(ls)) => Success([l] + ls)
      case _ => Failure(OutsideModel)
  }

  function EncodeRows(levels: seq<Level>): (r: seq<Json>)
    ensures |r| == |levels|
    ensures forall i :: 0 <= i < |levels| ==> r[i] == EncodeLevel(levels[i])
  {
    if levels == [] then [] else [EncodeLevel(levels[0])] + EncodeRows(levels[1..])
  }

  /** Reading back encoded rows gives the rows. */
  lemma {:induction false} DecodeEncodeRows(levels: seq<Level>)
    ensures DecodeRows(EncodeRows(levels)) == Success(levels)
  {
    var items := EncodeRows(levels);
    forall i | 0 <= i < |items| ensures DecodeLevel(items[i]) == Some(levels[i]) {
      DecodeEncodeLevel(levels[i]);
    }
    var r := DecodeRows(items);
    assert r.value == levels;
  }

  /** `setBookSnapshoot(book)` up to the sort: `book?.forEach` treats `null` as
      no rows and throws on anything without a `forEach` method; reading
      `item[2]` throws on a `null` row, and every row is read before any is
      sorted. */
  function DecodeSnapshot(payload: Json): (r: Result<seq<Level>, Fault>)
    ensures payload.JNull? ==> r == Success([])
    ensures !payload.JNull? && !payload.JArr? ==> r == Failure(TypeError)
    ensures payload.JArr? && JNull in payload.items ==> r == Failure(TypeError)
    ensures r.Success? <==> payload.JNull? || (payload.JArr? && forall i :: 0 <= i < |payload.items| ==> DecodeLevel(payload.items[i]).Some?)
    ensures r.Success? && payload.JArr? ==> |r.value| == |payload.items|
    ensures r.Success? && payload.JArr? ==> forall i :: 0 <= i < |payload.items| ==> DecodeLevel(payload.items[i]) == Some(r.value[i])
  {
    match payload
    case JNull => Success([])
    case JArr(items) => if JNull in items then Failure(TypeError) else DecodeRows(items)
    case _ => Failure(TypeError)
  }
}
