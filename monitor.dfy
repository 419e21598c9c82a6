/**
 * The status table of the dashboard: three growable sequences of activity
 * states, one per interface category, indexed by the 1-based ordinal at the
 * end of each interface's name.
 */
module Monitor {
  import opened Wrappers
  import SplitWhitespace
  import ParseUsize

  /** The activity of one interface; `Inactive` is the default and the fill value for new slots. */
  datatype State = Active | Inactive

  /** A decoded report: `{ name, interface_type, state }`. */
  datatype InterfaceState = InterfaceState(name: string, interfaceType: string, state: string)

  /** The status table, one sequence of states per category. */
  datatype App = App(serverStates: seq<State>, publisherStates: seq<State>, subscriberStates: seq<State>)

  /** The three categories a report's `interface_type` may name. */
  datatype Category = Server | Publisher | Subscriber

  /** The category an `interface_type` string selects, if any. */
  function CategoryOf(interfaceType: string): (c: Option<Category>)
    ensures c == Some(Server) <==> interfaceType == "server"
    ensures c == Some(Publisher) <==> interfaceType == "publisher"
    ensures c == Some(Subscriber) <==> interfaceType == "subscriber"
  {
    if interfaceType == "server" then Some(Server)
    else if interfaceType == "publisher" then Some(Publisher)
    else if interfaceType == "subscriber" then Some(Subscriber)
    else None
  }

  /** The sequence of category `c` in `app`. */
  function States(app: App, c: Category): seq<State> {
    match c
    case Server => app.serverStates
    case Publisher => app.publisherStates
    case Subscriber => app.subscriberStates
  }

  /** `app` with the sequence of category `c` replaced by `s`. */
  function WithStates(app: App, c: Category, s: seq<State>): (r: App)
    ensures States(r, c) == s
    ensures forall d :: d != c ==> States(r, d) == States(app, d)
  {
    match c
    case Server => app.(serverStates := s)
    case Publisher => app.(publisherStates := s)
    case Subscriber => app.(subscriberStates := s)
  }

  function Max(a: nat, b: nat): nat {
    if a < b then b else a
  }

  /** `App::new`: an empty table. */
  function New(): (app: App)
    ensures forall c :: States(app, c) == []
  {
    App([], [], [])
  }

  /** The state a report's `state` string stands for: only the exact string `Active` is active. */
  function StateOf(state: string): (st: State)
    ensures st == Active <==> state == "Active"
    ensures st == Inactive <==> state != "Active"
  {
    if state == "Active" then Active else Inactive
  }

  /** `name.split_whitespace().last().and_then(|n| n.parse::<usize>().ok())`. */
  function Ordinal(name: string): (r: Option<nat>)
    ensures r.Some? ==> r.value <= ParseUsize.USIZE_MAX
  {
    match SplitWhitespace.LastToken(name)
    case None => None
    case Some(token) => ParseUsize.Parse(token)
  }

  /** The ordinal is read from the last of the tokens `split_whitespace` yields. */
  lemma OrdinalOfLastToken(name: string)
    ensures var ts := SplitWhitespace.Tokens(name);
      Ordinal(name) == if ts == [] then None else ParseUsize.Parse(ts[|ts| - 1])
  {
    SplitWhitespace.LastTokenIsLastOfTokens(name);
  }

  /** `Vec::resize(n, fill)`: truncate to, or extend with `fill` up to, length `n`. */
  function Resize(s: seq<State>, n: nat, fill: State): (r: seq<State>)
    ensures |r| == n
    ensures forall i :: 0 <= i < n ==> r[i] == if i < |s| then s[i] else fill
  {
    if n <= |s| then s[..n] else s + seq(n - |s|, _ => fill)
  }

  /**
   * What `update_specific_state` computes: for a positive ordinal `pos`, the
   * sequence covers at least `pos` slots and slot `pos - 1` holds `st`, new
   * slots are inactive and the others keep their values; without a positive
   * ordinal the sequence is returned as it was.
   */
  function SpecificUpdate(states: seq<State>, name: string, st: State): (r: seq<State>)
    ensures |r| >= |states|
    ensures Ordinal(name).Some? && Ordinal(name).value > 0 ==>
      |r| == Max(|states|, Ordinal(name).value) && r[Ordinal(name).value - 1] == st
  {
    match Ordinal(name)
    case None => states
    case Some(pos) =>
      if pos == 0 then states
      else
        seq(Max(|states|, pos), i requires 0 <= i < Max(|states|, pos) =>
          if i == pos - 1 then st else if i < |states| then states[i] else Inactive)
  }

  /** The slot-by-slot effect of `SpecificUpdate`. */
  lemma SpecificUpdateSlots(states: seq<State>, name: string, st: State)
    ensures Ordinal(name).None? || Ordinal(name) == Some(0) ==> SpecificUpdate(states, name, st) == states
    ensures Ordinal(name).Some? && Ordinal(name).value > 0 ==>
      var pos, r := Ordinal(name).value, SpecificUpdate(states, name, st);
      && |r| == Max(|states|, pos)
      && r[pos - 1] == st
      && (forall i :: 0 <= i < |states| && i != pos - 1 ==> r[i] == states[i])
      && (forall i :: |states| <= i < pos - 1 ==> r[i] == Inactive)
  {
  }

  /**
   * `App::update_specific_state`: resize the owned vector when the ordinal lies
   * beyond it, then assign the slot in place.
   */
  method UpdateSpecificState(states: seq<State>, name: string, st: State) returns (r: seq<State>)
    ensures r == SpecificUpdate(states, name, st)
  {
    r := states;
    var parsed := Ordinal(name);
    if parsed.Some? {
      var pos := parsed.value;
      if pos > 0 {
        if pos > |r| {
          r := Resize(r, pos, Inactive);
        }
        r := r[pos - 1 := st];
      }
    }
  }

  /**
   * `App::update_state`: the table with the report applied to the sequence of
   * its category; any other `interface_type` leaves the table as it was.
   */
  function UpdateState(app: App, iface: InterfaceState): (r: App)
    ensures CategoryOf(iface.interfaceType).None? ==> r == app
  {
    match CategoryOf(iface.interfaceType)
    case None => app
    case Some(c) => WithStates(app, c, SpecificUpdate(States(app, c), iface.name, StateOf(iface.state)))
  }

  /**
   * An unknown category leaves the table unchanged; a known one has its
   * sequence updated and the two other sequences left as they were.
   */
  lemma UpdateStateFrame(app: App, iface: InterfaceState)
    ensures CategoryOf(iface.interfaceType).None? ==> UpdateState(app, iface) == app
    ensures forall c :: CategoryOf(iface.interfaceType) == Some(c) ==>
      States(UpdateState(app, iface), c) == SpecificUpdate(States(app, c), iface.name, StateOf(iface.state))
    ensures forall c, d :: CategoryOf(iface.interfaceType) == Some(c) && d != c ==>
      States(UpdateState(app, iface), d) == States(app, d)
  {
  }

  /** Writing the same slot twice with the same state is writing it once. */
  lemma SpecificUpdateIdempotent(states: seq<State>, name: string, st: State)
    ensures SpecificUpdate(SpecificUpdate(states, name, st), name, st) == SpecificUpdate(states, name, st)
  {
  }

  /** Applying the same report twice gives the same table as applying it once. */
  lemma UpdateStateIdempotent(app: App, iface: InterfaceState)
    ensures UpdateState(UpdateState(app, iface), iface) == UpdateState(app, iface)
  {
  }

  /** No update ever shortens a sequence. */
  lemma UpdateStateGrowsOnly(app: App, iface: InterfaceState, c: Category)
    ensures |States(UpdateState(app, iface), c)| >= |States(app, c)|
    ensures forall i :: 0 <= i < |States(app, c)| && States(UpdateState(app, iface), c)[i] != States(app, c)[i] ==>
      CategoryOf(iface.interfaceType) == Some(c) && Ordinal(iface.name) == Some(i + 1)
  {
  }

  /** Reports for two different categories can be applied in either order. */
  lemma UpdatesOfOtherCategoriesCommute(app: App, a: InterfaceState, b: InterfaceState)
    requires CategoryOf(a.interfaceType) != CategoryOf(b.interfaceType)
    ensures UpdateState(UpdateState(app, a), b) == UpdateState(UpdateState(app, b), a)
  {
  }
}
