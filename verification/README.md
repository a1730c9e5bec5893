# Bitfinex BTC/USD order book widget — a Dafny model

This project models the core of a React single-page app. The app subscribes to
Bitfinex's public websocket "book" channel for `tBTCUSD` and keeps a two-sided
order book. A snapshot message replaces the book. Each update message changes
one side. The user can connect, disconnect, and step the aggregation
precision between `P0` and `P4`. All of that logic lives in `src/App.jsx`.

The model has seven modules, one per file and one per concern:

- `Wrappers`: `Option` and `Result`.
- `Decimal`: how the template literal `` `P${precision}` `` spells an integer, and the matching parser.
- `Json`: the value `JSON.parse` returns, plus the JavaScript operations the handler applies to it:
  - truthiness;
  - `v[i]` on arrays, strings and objects;
  - `?.chanId`;
  - `constructor === Array`;
  - `===`.
- `Levels`: a book row `[price, count, amount]`, order-keeping selection, reversal, and the sort.
  - Every sort in the app is `Array.prototype.sort` with `asc` on the price. That sort is stable.
- `OrderBook`: `setBookSnapshoot`, `handleUpdate`, the initial book and `bookSnapshotIsReady`.
- `Feed`: the classifier of `handleNewMessage` (channel binding, channel check, snapshot-or-update dispatch) and the decoding of payload rows.
- `Controller`: the component as a state machine. Its events are:
  - a message arrives;
  - the connect/disconnect toggle is pressed;
  - a precision button is pressed;
  - the reconnect interval ticks.

  It also defines the subscribe request, the button guards, and runs of events.

`asc` lives in `src/utils/functions`, which is not part of this model. It is
taken to be ascending numeric comparison of two prices. All the sorting results
below depend on that assumption.

What the code does, where it differs from the conventional best-price-first book:

- **Side order.** Both sides are sorted ascending, and the asks are then
  reversed. So bids come out lowest price first and asks highest price first.
  This is the opposite of the usual "best price first" presentation.
- **Updates.** An update is never an upsert or a delete. The row is appended to
  its side (chosen by the sign of its amount), the side is re-sorted, and one
  row is popped.
  - For bids, the row popped is the last of the highest-priced rows, taking
    the stored side in order followed by the update. Stored bids at one price
    are in arrival order, so this is the latest arrival at that price.
  - For asks, it is the first of the lowest-priced rows, taking the stored side
    in order followed by the update. Right after a snapshot, stored asks at one
    price are in reverse feed order. Each ask update then reverses the asks at
    every price. So which arrival is popped depends on how many ask updates
    came before.
  - `count` is never read, so a zero count does not delete anything.
  - No side ever changes length. An update therefore cannot make an unready book ready.
- **Asks flip.** Each ask update reverses the order of the ask rows at every
  price. Bid updates leave the asks alone. This comes from reversing after a
  stable sort. Take asks `a1` then `a2` at one price. The first ask update
  above them pops `a2`, the later arrival (`OrderBook.AsksPopLaterArrival`).
  If an ask below them comes first instead, it reverses them, and an ask above
  them then pops `a1`, the earlier arrival (`OrderBook.AsksPopEarlierAfterFlip`).
- **Channel filter.** The channel check (line 127) joins its two tests with
  `&&`. So arrays are never filtered by channel id. A non-array message is let
  through when its key `"0"` strictly equals the bound channel id. For example,
  `{"0": 17, "1": [p, c, a]}` after the channel 17 was bound counts as an update.
- **Channel id survives disconnects.** Disconnecting keeps the channel id. Only
  a later message carrying a truthy `chanId` replaces it.
- **Null snapshot.** A snapshot payload of `null` would give an empty book
  (`book?.forEach`). The classifier never routes a falsy payload to a
  snapshot, though.
- **Reconnect interval.** `changePrecision` starts a 1 ms interval calling
  `connect` and never clears it. After any precision change, every tick
  re-subscribes. A later disconnect is undone by the next tick.

## Model

| member | source | states |
|---|---|---|
| Decimal.NatToString | src/App.jsx:50 | The rendering of a natural number is a non-empty digit string with no leading zero except for 0 itself |
| Decimal.DigitsValueOfNatToString | src/App.jsx:50 | Reading back the digits of a rendered natural number gives the number |
| Decimal.IntToStringRoundTrip | src/App.jsx:50 | Rendering an integer in decimal digits, as the template literal does below 10^21 in magnitude, and parsing it back is the identity, so distinct precisions are spelled distinctly |
| Json.StrictEqualsMeansSameScalar | src/App.jsx:127 | `!==` against the channel id is false only for an identical scalar; arrays and objects are never strictly equal to it |
| Levels.Select | src/App.jsx:72-77 | Picking rows by a criterion never lengthens the sequence |
| Levels.SelectMember | src/App.jsx:72-77 | A row is picked exactly when it occurs and matches the criterion |
| Levels.SelectAppend | src/App.jsx:106 | Picking from a concatenation is concatenating the picks |
| Levels.SelectCommute | src/App.jsx:72-84 | Splitting by side and then by price gives the same rows in the same order as the reverse |
| Levels.SplitMultiset | src/App.jsx:72-77 | The bid rows and the ask rows together are exactly the input rows: every row lands on exactly one side |
| Levels.Reverse | src/App.jsx:93 | `.reverse()` keeps length and contents and puts row `i` at position `n-1-i` |
| Levels.ReverseInvolutive | src/App.jsx:93 | Reversing twice restores the sequence |
| Levels.ReverseSorted | src/App.jsx:86-93 | A sequence is ascending by price exactly when its reversal is descending, and vice versa |
| Levels.SelectReverse | src/App.jsx:86-93 | The rows at a price in a reversed sequence are those rows reversed |
| Levels.Insert | src/App.jsx:79-84 | Inserting a row into an ascending sequence keeps it ascending, adds exactly that row, and places it after every row already there at its price |
| Levels.Sort | src/App.jsx:79-84 | The stable sort by `asc`: an ascending permutation of its input that keeps the input order among rows of equal price |
| Levels.SortedStableUnique | src/App.jsx:79-84 | Two ascending sequences that agree price by price are equal, so the sort result is uniquely determined |
| Levels.SortCharacterized | src/App.jsx:79-84 | Any ascending arrangement that keeps each price's rows in input order is the sort |
| Levels.SortSorted | src/App.jsx:79-84 | Sorting an already ascending side changes nothing |
| Levels.SortMember | src/App.jsx:79-84 | Sorting keeps exactly the rows it was given |
| Levels.MaxPrice | src/App.jsx:107 | The highest price bounds every row and is carried by some row |
| Levels.MinPrice | src/App.jsx:111-114 | The lowest price bounds every row from below and is carried by some row |
| Levels.LastOfSort | src/App.jsx:107 | The last row after sorting is the last of the input's rows at the highest price, in input order |
| Levels.FirstOfSort | src/App.jsx:111-114 | The first row after sorting is the first of the input's rows at the lowest price, in input order |
| Levels.InsertIgnoresCount | src/App.jsx:79-84 | The comparator reads only the price: rows differing only in count are placed identically |
| Levels.SortIgnoresCount | src/App.jsx:79-84 | Sorting rows that differ only in count gives the same prices and amounts in the same places |
| OrderBook.Snapshot | src/App.jsx:69-96 | Bids are exactly the positive-amount rows, asks the rest; together they are the input rows; bids ascend and asks descend; each price's bids keep feed order and each price's asks are in reverse feed order; no rows give the empty book |
| OrderBook.SnapshotUnique | src/App.jsx:69-96 | Those conditions determine the snapshot book completely |
| OrderBook.SnapshotReady | src/App.jsx:24-26 | A snapshot is ready exactly when the feed had a positive-amount row and a non-positive-amount row |
| OrderBook.UpdateBids | src/App.jsx:104-107 | The bid side after an update keeps its length and stays ascending; at each price it holds the old rows plus the update, minus the last of them at the top price |
| OrderBook.UpdateAsks | src/App.jsx:108-115 | The ask side after an update keeps its length and stays descending; at each price it holds the old rows plus the update, minus the first of them at the lowest price, in the reverse of stored order with the update last |
| OrderBook.ApplyUpdate | src/App.jsx:98-118 | The sign of the amount picks the side and the other side is untouched; no side changes length; readiness is unchanged; an ordered book stays ordered |
| OrderBook.UpdateBidsDrops | src/App.jsx:104-107 | Exactly one row is lost from bids plus update: the last of the highest-priced rows, stored order with the update last |
| OrderBook.UpdateAsksDrops | src/App.jsx:108-115 | Exactly one row is lost from asks plus update: the first of the lowest-priced rows, stored order with the update last |
| OrderBook.UpdateBidsAtTop | src/App.jsx:104-107 | A bid at or above every bid is itself popped and the ascending side is left as it was |
| OrderBook.UpdateBidsKeepsLower | src/App.jsx:104-107 | A bid below some existing bid survives the update |
| OrderBook.UpdateAsksBelowAll | src/App.jsx:108-115 | An ask below every existing ask is itself popped; the side keeps its rows but is re-sorted and reversed |
| OrderBook.UpdateAsksKeepsHigher | src/App.jsx:108-115 | An ask at or above some existing ask survives the update |
| OrderBook.AsksPopLaterArrival | src/App.jsx:86-115 | Two equal-price asks arriving `a1` then `a2` are stored as `[a2, a1]`, and a first ask update above them pops `a2`, the later arrival |
| OrderBook.UpdateTwoAsksBelow | src/App.jsx:111-114 | An ask below two equal-price asks stored as `[a2, a1]` is popped and leaves them as `[a1, a2]`: the update reverses the rows at their price |
| OrderBook.AsksPopEarlierAfterFlip | src/App.jsx:86-115 | Two equal-price asks arriving `a1` then `a2` are stored as `[a2, a1]`; an ask below them turns them into `[a1, a2]`; a later ask above them then pops `a1`, the earlier arrival |
| OrderBook.UpdateIgnoresCount | src/App.jsx:98-118 | Updates differing only in `count`, zero included, leave the same prices and amounts in the same places |
| Feed.Classify | src/App.jsx:125-139 | A truthy `chanId` is bound and any other value keeps the old binding; only `null` throws; anything routed to the book passed the channel check |
| Feed.ArraysNotFiltered | src/App.jsx:127 | The route of an array message does not depend on the bound channel id |
| Feed.NonArraysNeedChannelKey | src/App.jsx:127 | A non-array message reaches the book only as an object whose key "0" holds a scalar equal to the bound channel id |
| Feed.SubscribedAckBindsChannel | src/App.jsx:125-127 | The subscription acknowledgement binds its non-zero channel id and changes nothing else |
| Feed.SnapshotShapeFirst | src/App.jsx:127-131 | Any message past the channel check whose element 1 starts with an array is a snapshot of that element, whatever its length, so the snapshot test wins over the update test |
| Feed.UpdateShape | src/App.jsx:127-139 | Any message past the channel check whose element 1 is a three-element array not starting with an array is an update of that element |
| Feed.OtherPayloadsIgnored | src/App.jsx:129-139 | Any non-null message whose element 1 is missing, a string such as a heartbeat, a number, `null`, a boolean, an array of another length not starting with an array, or an object whose key "0" is not an array, is ignored |
| Feed.ObjectMessageIsUpdate | src/App.jsx:127-139 | `{"0": id, "1": [p, c, a]}` with `id` the bound channel is routed as an update |
| Feed.DecodeEncodeLevel | src/App.jsx:201 | Reading a row back from its `[price, count, amount]` form gives the row |
| Feed.EncodeDecodeLevel | src/App.jsx:201 | A three-element row is exactly the encoding of what it is read as |
| Feed.DecodeRows | src/App.jsx:72-77 | A payload's items are read in full exactly when every item is a row, element by element |
| Feed.DecodeEncodeRows | src/App.jsx:72-77 | Reading encoded rows back gives the rows |
| Feed.DecodeSnapshot | src/App.jsx:72-73 | `null` gives no rows; any other non-array throws; a `null` item throws; otherwise it succeeds exactly when every item is a row |
| Controller.Subscribe | src/App.jsx:44-53 | The request subscribes to the `book` channel for `tBTCUSD`, and its `prec` field reads back as the current precision |
| Controller.SubscribeSpelling | src/App.jsx:50 | A single-digit precision is spelled `P` followed by that digit |
| Controller.Connect | src/App.jsx:59-62 | Connecting sends exactly one subscribe request at the current precision and keeps the book and the channel id |
| Controller.Disconnect | src/App.jsx:64-67 | Disconnecting empties the book (so it is not ready) and keeps the channel id and the precision |
| Controller.ChangePrecision | src/App.jsx:142-149 | The precision moves by the step, the book is emptied, the connection dropped, and reconnection begins |
| Controller.HandleMessage | src/App.jsx:120-140 | Missing data changes nothing; a message changes only the book and the channel id; an ordered book stays ordered; ignored messages keep the book; only routed messages can throw |
| Controller.Step | src/App.jsx:55-175 | Only messages can throw or rebind the channel; messages send nothing; the precision changes only through an enabled precision button; every request sent subscribes at the current precision |
| Controller.Run | src/App.jsx:38-40 | A run fails only if it contains a message, and sends at most one request per event |
| Controller.StepPreservesInvariant | src/App.jsx:163-175 | Each event keeps the precision within 0..4 and the book ordered, and sends only `P0`..`P4` subscriptions |
| Controller.RunPreservesInvariant | src/App.jsx:163-175 | The same holds for any run from a state satisfying the invariant |
| Controller.ReachableInvariant | src/App.jsx:163-175 | From the first render, every run keeps the precision within 0..4 and the book ordered, and sends only `P0`..`P4` subscriptions |
| Controller.OnlySnapshotMakesReady | src/App.jsx:120-140 | An unready book becomes ready only through a message routed to the snapshot |
| Controller.SnapshotForgetsBook | src/App.jsx:69-96 | A snapshot's outcome does not depend on the book it replaces |
| Controller.DisabledPressIsNoOp | src/App.jsx:163-175 | A press on a disabled precision button changes nothing and sends nothing |
| Controller.EnabledPressResubscribes | src/App.jsx:142-149 | An enabled press shifts the precision by one, empties the book, and the next tick subscribes at the new precision |
| Controller.DisconnectUndoneByInterval | src/App.jsx:142-149 | After a precision change, a disconnect lasts only until the next tick, which connects and subscribes again |
| Controller.TickWithoutIntervalIsNoOp | src/App.jsx:146-148 | Before any precision change, interval ticks do nothing |

## Left out

- The websocket itself, `react-use-websocket`'s reconnect policy and `readyState`: these are foreign code. The model records the requests handed to `sendMessage` and treats each arriving message as an event.
- `JSON.parse` and `JSON.stringify`: messages arrive already parsed. A request is the object before it is serialised. Malformed JSON would throw in `JSON.parse` and is not modelled.
- Rendering: the tables, the status text, `uuidv4` keys and the `AMOUNT * -1` display are presentation only.
- React's render timing: `connected` is read from the render closure. The model applies each state change before the next event. The `disabled` guards of lines 165 and 172 are also computed at render time, from the refs `bookSnapshot` and `precision`. The message handler and `changePrecision` change those refs without causing a re-render, so in the app the guards can lag one render behind the book. `Controller.RaiseEnabled` and `Controller.LowerEnabled` read the current state.
- `asc`: its source file is not part of this model. It is taken to be ascending numeric order of prices.
- Feed.DecodeLevel: rows whose price or amount is not a JSON number give `OutsideModel`. A row holds numbers only. The app still handles such rows: `amount > 0` coerces the amount (`[100,1,"5"]` is a bid; `[100,1]` and `[100,1,null]` are asks), and `asc` compares the prices. That coercion and `asc` on non-numbers are not modelled. Objects with keys "0" and "2" are also rejected, although JavaScript could index them; the render-time destructuring of such a row would throw anyway.
- Feed.DecodeSnapshot: a snapshot containing a non-row item stops with `OutsideModel`. The app does not stop: it places the item by the coerced sign of `item[2]` and sorts it with `asc`.
- JSON numbers are modelled as unbounded reals. Floating-point rounding, `-0` and the JavaScript comparison of `0` with `-0` are not modelled; `amount > 0` is read as real comparison.
- Json.At: string indexing is by character. JavaScript indexes by UTF-16 code unit.
- Controller.Step: the interval started by each precision change is modelled as one flag. Every tick calls `connect` whenever an interval exists. The number of intervals only changes how often ticks come, and ticks are arbitrary events here.
- Controller.Run: a throw ends the run. In the app, an exception in the effect unmounts the component.
- Controller.HandleMessage: the empty-data check of line 121 is modelled as `data` being absent. The `data` strings themselves are not modelled.
- Decimal.IntToString: JavaScript writes integer values of magnitude 10^21 or more in exponent form (`1e+21`); the model always writes all digits. The precision never leaves 0..4 (Controller.ReachableInvariant), so the app never renders such a value.
