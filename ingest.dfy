/**
 * The ingest step of the subscriber loop: each payload is decoded, and a
 * decoded report is applied to the table; a payload that fails to decode is
 * dropped. The JSON decoder is a parameter.
 */
module Ingest {
  import opened Wrappers
  import opened Monitor

  /** One message: apply the report when decoding succeeded, otherwise change nothing. */
  function Ingest(app: App, decoded: Option<InterfaceState>): (r: App)
    ensures decoded.None? ==> r == app
  {
    match decoded
    case None => app
    case Some(iface) => UpdateState(app, iface)
  }

  /** The table after ingesting `msgs` in arrival order, starting from `app`. */
  function IngestAll(app: App, msgs: seq<Option<InterfaceState>>): (r: App)
    decreases |msgs|
  {
    if msgs == [] then app else Ingest(IngestAll(app, msgs[..|msgs| - 1]), msgs[|msgs| - 1])
  }

  /** The decoder's verdict on each payload, in order. */
  function Decoded(payloads: seq<string>, decode: string -> Option<InterfaceState>): (ds: seq<Option<InterfaceState>>)
    ensures |ds| == |payloads|
    ensures forall i :: 0 <= i < |payloads| ==> ds[i] == decode(payloads[i])
  {
    seq(|payloads|, i requires 0 <= i < |payloads| => decode(payloads[i]))
  }

  /**
   * The body of `subscriber_callback` over the messages that arrive: decode
   * each payload and, on success, replace the table by the updated one.
   */
  method SubscriberCallback(app: App, payloads: seq<string>, decode: string -> Option<InterfaceState>)
    returns (r: App)
    ensures r == IngestAll(app, Decoded(payloads, decode))
  {
    ghost var ds := Decoded(payloads, decode);
    r := app;
    var i := 0;
    while i < |payloads|
      invariant 0 <= i <= |payloads|
      invariant r == IngestAll(app, ds[..i])
    {
      var data := decode(payloads[i]);
      if data.Some? {
        r := UpdateState(r, data.value);
      }
      assert ds[..i + 1][..i] == ds[..i];
      i := i + 1;
    }
    assert ds[..i] == ds;
  }

  /** The ordinal a message sets for category `c`: positive, or 0 when it sets none. */
  function ReportOrdinal(msg: Option<InterfaceState>, c: Category): nat {
    match msg
    case None => 0
    case Some(iface) =>
      if CategoryOf(iface.interfaceType) == Some(c) then
        match Ordinal(iface.name)
        case None => 0
        case Some(pos) => pos
      else 0
  }

  /** The largest positive ordinal any of `msgs` sets for category `c`, or 0. */
  function MaxOrdinal(msgs: seq<Option<InterfaceState>>, c: Category): nat
    decreases |msgs|
  {
    if msgs == [] then 0 else Max(MaxOrdinal(msgs[..|msgs| - 1], c), ReportOrdinal(msgs[|msgs| - 1], c))
  }

  /** The state the last of `msgs` that sets ordinal `k` of category `c` carries, if any. */
  function LastReported(msgs: seq<Option<InterfaceState>>, c: Category, k: nat): Option<State>
    decreases |msgs|
  {
    if msgs == [] then None
    else
      var m := msgs[|msgs| - 1];
      if k > 0 && ReportOrdinal(m, c) == k then Some(StateOf(m.value.state))
      else LastReported(msgs[..|msgs| - 1], c, k)
  }

  /** One message makes the sequence of `c` as long as the ordinal it sets for `c`, if longer. */
  lemma IngestLength(before: App, m: Option<InterfaceState>, c: Category)
    ensures |States(Ingest(before, m), c)| == Max(|States(before, c)|, ReportOrdinal(m, c))
  {
  }

  /** One message writes only the slot of the ordinal it sets; new slots are inactive. */
  lemma IngestSlot(before: App, m: Option<InterfaceState>, c: Category, i: nat)
    requires i < |States(Ingest(before, m), c)|
    ensures States(Ingest(before, m), c)[i] ==
      if ReportOrdinal(m, c) == i + 1 then StateOf(m.value.state)
      else if i < |States(before, c)| then States(before, c)[i]
      else Inactive
  {
  }

  /** After ingesting `msgs`, a sequence is as long as it was or as the largest ordinal set for it. */
  lemma {:induction false} IngestAllLength(app: App, msgs: seq<Option<InterfaceState>>, c: Category)
    ensures |States(IngestAll(app, msgs), c)| == Max(|States(app, c)|, MaxOrdinal(msgs, c))
    decreases |msgs|
  {
    if msgs != [] {
      IngestAllLength(app, msgs[..|msgs| - 1], c);
      IngestLength(IngestAll(app, msgs[..|msgs| - 1]), msgs[|msgs| - 1], c);
    }
  }

  /**
   * After ingesting `msgs`, each slot holds the state of the last message that
   * set it; a slot no message set keeps its old state, or is inactive if it is new.
   */
  lemma {:induction false} IngestAllSlot(app: App, msgs: seq<Option<InterfaceState>>, c: Category, i: nat)
    requires i < |States(IngestAll(app, msgs), c)|
    ensures States(IngestAll(app, msgs), c)[i] ==
      match LastReported(msgs, c, i + 1)
      case Some(st) => st
      case None => if i < |States(app, c)| then States(app, c)[i] else Inactive
    decreases |msgs|
  {
    if msgs != [] {
      var prefix, m := msgs[..|msgs| - 1], msgs[|msgs| - 1];
      var before := IngestAll(app, prefix);
      assert IngestAll(app, msgs) == Ingest(before, m);
      IngestSlot(before, m, c, i);
      if ReportOrdinal(m, c) != i + 1 {
        assert LastReported(msgs, c, i + 1) == LastReported(prefix, c, i + 1);
        if i < |States(before, c)| {
          IngestAllSlot(app, prefix, c, i);
        } else {
          NewSlotNotReported(app, prefix, c, i);
        }
      }
    }
  }

  /** A slot beyond the end of the table after `msgs` was neither in the old table nor set by any message. */
  lemma NewSlotNotReported(app: App, msgs: seq<Option<InterfaceState>>, c: Category, i: nat)
    requires i >= |States(IngestAll(app, msgs), c)|
    ensures i >= |States(app, c)|
    ensures LastReported(msgs, c, i + 1) == None
  {
    IngestAllLength(app, msgs, c);
    NotReportedBeyondMax(msgs, c, i + 1);
  }

  /** No message sets an ordinal above the largest one. */
  lemma {:induction false} NotReportedBeyondMax(msgs: seq<Option<InterfaceState>>, c: Category, k: nat)
    requires k > MaxOrdinal(msgs, c)
    ensures LastReported(msgs, c, k) == None
    decreases |msgs|
  {
    if msgs != [] {
      NotReportedBeyondMax(msgs[..|msgs| - 1], c, k);
    }
  }

  /**
   * From the empty table: each category's length is the largest positive
   * ordinal reported for it (0 if none), and each slot is the last reported
   * state for that ordinal, or inactive.
   */
  lemma IngestFromNew(msgs: seq<Option<InterfaceState>>, c: Category)
    ensures |States(IngestAll(New(), msgs), c)| == MaxOrdinal(msgs, c)
    ensures forall i :: 0 <= i < MaxOrdinal(msgs, c) ==>
      States(IngestAll(New(), msgs), c)[i] ==
        match LastReported(msgs, c, i + 1) case Some(st) => st case None => Inactive
  {
    IngestAllLength(New(), msgs, c);
    forall i | 0 <= i < MaxOrdinal(msgs, c)
      ensures States(IngestAll(New(), msgs), c)[i] ==
        match LastReported(msgs, c, i + 1) case Some(st) => st case None => Inactive
    {
      IngestAllSlot(New(), msgs, c, i);
    }
  }

  /** A message that failed to decode can be removed from anywhere in the stream without changing the result. */
  lemma {:induction false} IngestAllSkipsFailures(app: App, xs: seq<Option<InterfaceState>>, ys: seq<Option<InterfaceState>>)
    ensures IngestAll(app, xs + [None] + ys) == IngestAll(app, xs + ys)
    decreases |ys|
  {
    if ys == [] {
      assert xs + [None] + ys == xs + [None];
      IngestAllSnoc(app, xs, None);
      assert xs + ys == xs;
    } else {
      var ys', m := ys[..|ys| - 1], ys[|ys| - 1];
      IngestAllSkipsFailures(app, xs, ys');
      assert xs + [None] + ys == (xs + [None] + ys') + [m];
      assert xs + ys == (xs + ys') + [m];
      IngestAllSnoc(app, xs + [None] + ys', m);
      IngestAllSnoc(app, xs + ys', m);
    }
  }

  /** Ingesting one more message is one more `Ingest` step. */
  lemma IngestAllSnoc(app: App, msgs: seq<Option<InterfaceState>>, m: Option<InterfaceState>)
    ensures IngestAll(app, msgs + [m]) == Ingest(IngestAll(app, msgs), m)
  {
  }

  /** A report for ordinal 0, for an unparsable name or for an unknown category changes nothing. */
  lemma IgnoredReports(app: App, iface: InterfaceState)
    requires CategoryOf(iface.interfaceType).None? || Ordinal(iface.name).None? || Ordinal(iface.name) == Some(0)
    ensures Ingest(app, Some(iface)) == app
  {
  }
}
