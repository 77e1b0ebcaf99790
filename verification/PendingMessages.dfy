/** The chunked display of pending messages in `MozConversationBrowser`: a cooperative
    scheduler whose idle callbacks interleave with appends, replacements, activations and
    re-initialisations. */
module PendingMessages {

  /** An empty `remoteId` stands for none. */
  datatype Message = Message(remoteId: string, text: string)

  datatype Entry = Entry(msg: Message, context: bool, firstUnread: bool)

  /** A call of `displayMessage`; `appended` counts the messages appended, since the last
      load, when the run of `displayPendingMessages` that made the call began. */
  datatype Shown = Shown(entry: Entry, autoScroll: bool, appended: nat)

  /** `messages`, `next`, `displayed` and `pending` are `_pendingMessages`,
      `_nextPendingMessageIndex`, `_pendingMessagesDisplayed` and `_messageDisplayPending`;
      `callbacks` counts the idle callbacks requested and not yet run, current or stale;
      `loading` holds from `init` to the load event; `log` holds the calls of `displayMessage`
      since the last load. */
  datatype State = State(messages: seq<Entry>, next: nat, displayed: nat, pending: bool,
                         active: bool, loading: bool, callbacks: nat, log: seq<Shown>)

  /** What holds between any two steps. */
  ghost predicate Inv(s: State) {
    && QueueInv(s)
    && (s.pending ==> s.messages != [] && s.callbacks >= 1)
    && (!s.loading && s.active && s.messages != [] ==> s.pending)
  }

  /** The cursor and the counter agree, the array is emptied as soon as it is drained, and a
      message shown was scrolled to exactly if it was then the last one appended. */
  ghost predicate QueueInv(s: State) {
    && s.displayed == s.next
    && (s.next < |s.messages| || (s.messages == [] && s.next == 0))
    && (forall i :: 0 <= i < |s.log| ==> (s.log[i].autoScroll <==> s.log[i].appended == i + 1))
  }

  function Undisplayed(s: State): seq<Entry>
    requires s.next <= |s.messages|
  {
    s.messages[s.next..]
  }

  function LogEntries(log: seq<Shown>): (es: seq<Entry>)
    ensures |es| == |log|
    ensures forall i :: 0 <= i < |es| ==> es[i] == log[i].entry
  {
    seq(|log|, i requires 0 <= i < |log| => log[i].entry)
  }

  /** The messages shown, then those that wait. */
  function Entries(s: State): seq<Entry>
    requires s.next <= |s.messages|
  {
    LogEntries(s.log) + Undisplayed(s)
  }

  // ---- The steps ----

  /** The first `count` waiting messages as one run shows them: all without auto-scroll but
      the one that is last in the array. */
  function ShownNext(s: State, count: nat): (shown: seq<Shown>)
    requires s.next + count <= |s.messages|
    ensures |shown| == count
  {
    seq(count, i requires 0 <= i < count =>
      Shown(s.messages[s.next + i], s.next + i + 1 == |s.messages|, |s.log| + |Undisplayed(s)|))
  }

  /** A run shows one message more than the number of times that time remained, as far as
      there are messages. */
  function Count(s: State, timeLeft: nat): nat
    requires s.next <= |s.messages|
  {
    if timeLeft + 1 <= |Undisplayed(s)| then timeLeft + 1 else |Undisplayed(s)|
  }

  /** `displayPendingMessages`. */
  function Display(s: State, timeLeft: nat): (r: State)
    requires QueueInv(s)
    ensures QueueInv(r)
  {
    if !s.pending then s
    else
      var count := Count(s, timeLeft);
      var log := s.log + ShownNext(s, count);
      if s.next + count < |s.messages| then
        s.(next := s.next + count, displayed := s.displayed + count, log := log, callbacks := s.callbacks + 1)
      else
        s.(messages := [], next := 0, displayed := 0, log := log, pending := false)
  }

  datatype Event =
    | Append(entry: Entry)
    | Replace(msg: Message)
    | SetActive(value: bool, timeLeft: nat)
    | IdleCallback(timeLeft: nat)
    | Init
    | Load

  predicate Enabled(s: State, e: Event) {
    e.IdleCallback? ==> s.callbacks > 0
  }

  /** The first entry with this id, or the number of entries. */
  function FirstWithId(es: seq<Entry>, id: string): (i: nat)
    ensures i <= |es|
    ensures forall j :: 0 <= j < i ==> es[j].msg.remoteId != id
    ensures i < |es| ==> es[i].msg.remoteId == id
  {
    if es == [] || es[0].msg.remoteId == id then 0 else 1 + FirstWithId(es[1..], id)
  }

  /** The queue part of `replaceMessage`. */
  function Replaced(s: State, msg: Message): State {
    if msg.remoteId == "" then s
    else
      var i := FirstWithId(s.messages, msg.remoteId);
      if i < |s.messages| && i >= s.next then
        s.(messages := s.messages[i := s.messages[i].(msg := msg)])
      else s
  }

  function Step(s: State, e: Event): (r: State)
    requires QueueInv(s) && Enabled(s, e)
    ensures QueueInv(r)
  {
    match e
    case Append(entry) =>
      var r := s.(messages := s.messages + [entry]);
      if s.active && !s.pending then r.(pending := true, callbacks := s.callbacks + 1) else r
    case Replace(msg) => Replaced(s, msg)
    case SetActive(value, timeLeft) =>
      var r := s.(active := value);
      if value && s.messages != [] && !s.pending then Display(r.(pending := true), timeLeft) else r
    case IdleCallback(timeLeft) => Display(s.(callbacks := s.callbacks - 1), timeLeft)
    case Init => s.(pending := false, loading := true)
    case Load =>
      s.(messages := [], next := 0, displayed := 0, pending := false, loading := false, log := [])
  }

  lemma StepKeepsInv(s: State, e: Event)
    requires Inv(s) && Enabled(s, e)
    ensures Inv(Step(s, e))
  {}

  /** `t` is reached from `s` by these events, in this order. */
  ghost predicate Run(s: State, es: seq<Event>, t: State)
    requires QueueInv(s)
    decreases |es|
  {
    if es == [] then s == t
    else Enabled(s, es[0]) && Run(Step(s, es[0]), es[1..], t)
  }

  const START := State([], 0, 0, false, false, false, 0, [])

  /** Scheduler safety: in every reachable state. */
  lemma {:induction false} RunKeepsInv(s: State, es: seq<Event>, t: State)
    requires Inv(s) && Run(s, es, t)
    ensures Inv(t)
    decreases |es|
  {
    if es != [] {
      StepKeepsInv(s, es[0]);
      RunKeepsInv(Step(s, es[0]), es[1..], t);
    }
  }

  // ---- First in, first out, exactly once ----

  function Appended(es: seq<Event>): seq<Entry> {
    if es == [] then []
    else (if es[0].Append? then [es[0].entry] else []) + Appended(es[1..])
  }

  /** `b` is `a`, or `a` with its message replaced by one of the same id. */
  predicate UpToReplacement(es: seq<Event>, a: Entry, b: Entry) {
    && b.context == a.context && b.firstUnread == a.firstUnread
    && (b.msg == a.msg || (Replace(b.msg) in es && b.msg.remoteId == a.msg.remoteId != ""))
  }

  ghost predicate AllUpToReplacement(es: seq<Event>, a: seq<Entry>, b: seq<Entry>) {
    |a| == |b| && forall i :: 0 <= i < |a| ==> UpToReplacement(es, a[i], b[i])
  }

  lemma DisplayKeepsEntries(s: State, timeLeft: nat)
    requires QueueInv(s)
    ensures Entries(Display(s, timeLeft)) == Entries(s)
    ensures s.log <= Display(s, timeLeft).log
  {
    hide Display, ShownNext, LogEntries, Undisplayed;
    DisplayMoves(s, timeLeft);
    if s.pending {
      var r, count := Display(s, timeLeft), Count(s, timeLeft);
      var shown, waiting := ShownNext(s, count), Undisplayed(s);
      ShownEntries(s, count);
      LogEntriesConcat(s.log, shown);
      assert waiting == waiting[..count] + waiting[count..];
      assert (LogEntries(s.log) + waiting[..count]) + waiting[count..] == LogEntries(s.log) + waiting;
    }
  }

  /** A run moves entries from the front of the queue to the end of the log. */
  lemma DisplayMoves(s: State, timeLeft: nat)
    requires QueueInv(s)
    ensures s.next <= |s.messages| && Display(s, timeLeft).next <= |Display(s, timeLeft).messages|
    ensures !s.pending ==> Display(s, timeLeft) == s
    ensures s.pending ==>
      var count := Count(s, timeLeft);
      && count <= |Undisplayed(s)| && s.next + count <= |s.messages|
      && Undisplayed(Display(s, timeLeft)) == Undisplayed(s)[count..]
      && Display(s, timeLeft).log == s.log + ShownNext(s, count)
  {
    hide ShownNext, LogEntries;
  }

  lemma ShownEntries(s: State, count: nat)
    requires s.next + count <= |s.messages|
    ensures LogEntries(ShownNext(s, count)) == Undisplayed(s)[..count]
  {}

  lemma LogEntriesConcat(a: seq<Shown>, b: seq<Shown>)
    ensures LogEntries(a + b) == LogEntries(a) + LogEntries(b)
  {}

  /** The first entry with this id stands at `k`. */
  ghost predicate FirstAt(es: seq<Entry>, id: string, k: nat) {
    && k < |es| && es[k].msg.remoteId == id
    && forall j :: 0 <= j < k ==> es[j].msg.remoteId != id
  }

  lemma FirstAtIff(es: seq<Entry>, id: string, k: nat)
    requires k < |es|
    ensures FirstAt(es, id, k) <==> FirstWithId(es, id) == k
  {
    var i := FirstWithId(es, id);
    hide FirstWithId;
    if i < k { assert es[i].msg.remoteId == id; }
  }

  lemma ReplacedAt(s: State, msg: Message, k: nat)
    requires QueueInv(s) && s.next <= k < |s.messages|
    ensures var r := Step(s, Replace(msg));
            && r.log == s.log && r.next == s.next && |r.messages| == |s.messages|
            && r.messages[k] == if msg.remoteId != "" && FirstAt(s.messages, msg.remoteId, k)
                                then s.messages[k].(msg := msg) else s.messages[k]
  {
    FirstAtIff(s.messages, msg.remoteId, k);
    hide FirstAt, FirstWithId;
  }

  /** A replacement changes the first entry with its id still in the array, and only if that
      entry is not shown yet: an entry already shown hides later ones with the same id until
      the array is drained. */
  lemma ReplaceExactly(s: State, msg: Message)
    requires QueueInv(s)
    ensures var r := Step(s, Replace(msg));
            && r.log == s.log && |Entries(r)| == |Entries(s)|
            && forall k :: 0 <= k < |Undisplayed(s)| ==>
                 var old_, new_ := Undisplayed(s)[k], Undisplayed(r)[k];
                 var hit := msg.remoteId != "" && FirstAt(s.messages, msg.remoteId, s.next + k);
                 new_ == if hit then old_.(msg := msg) else old_
  {
    hide FirstAt, FirstWithId, Step;
    SameLength(s, msg);
    forall k | 0 <= k < |Undisplayed(s)|
      ensures var hit := msg.remoteId != "" && FirstAt(s.messages, msg.remoteId, s.next + k);
              Undisplayed(Step(s, Replace(msg)))[k]
              == if hit then Undisplayed(s)[k].(msg := msg) else Undisplayed(s)[k]
    {
      ReplacedAt(s, msg, s.next + k);
    }
  }

  lemma SameLength(s: State, msg: Message)
    requires QueueInv(s)
    ensures var r := Step(s, Replace(msg));
            && r.log == s.log && r.next == s.next && |r.messages| == |s.messages| && s.next <= |s.messages|
  {
    hide FirstWithId;
  }

  lemma StepEntries(s: State, e: Event)
    requires QueueInv(s) && Enabled(s, e) && !e.Load?
    ensures AllUpToReplacement([e], Entries(s) + Appended([e]), Entries(Step(s, e)))
    ensures s.log <= Step(s, e).log
  {
    AppendedByOne(e);
    assert s.next <= |s.messages|;
    hide Entries, Display, AllUpToReplacement, Appended, QueueInv, Replaced;
    assert Entries(s) + [] == Entries(s);
    match e
    case Append(entry) =>
      AppendEntries(s, entry);
      SameUpToReplacement([e], Entries(s) + [entry]);
    case Replace(msg) =>
      ReplaceEntries(s, msg);
    case SetActive(value, timeLeft) =>
      SetActiveEntries(s, value, timeLeft);
      SameUpToReplacement([e], Entries(s));
    case IdleCallback(timeLeft) =>
      CallbackEntries(s, timeLeft);
      SameUpToReplacement([e], Entries(s));
    case Init =>
      InitEntries(s);
      SameUpToReplacement([e], Entries(s));
  }

  lemma SetActiveEntries(s: State, value: bool, timeLeft: nat)
    requires QueueInv(s)
    ensures var r := Step(s, SetActive(value, timeLeft));
            Entries(r) == Entries(s) && s.log <= r.log
  {
    hide Display;
    if value && s.messages != [] && !s.pending {
      DisplayKeepsEntries(s.(active := value, pending := true), timeLeft);
    }
  }

  lemma CallbackEntries(s: State, timeLeft: nat)
    requires QueueInv(s) && s.callbacks > 0
    ensures var r := Step(s, IdleCallback(timeLeft));
            Entries(r) == Entries(s) && s.log <= r.log
  {
    hide Display;
    DisplayKeepsEntries(s.(callbacks := s.callbacks - 1), timeLeft);
  }

  lemma InitEntries(s: State)
    requires QueueInv(s)
    ensures var r := Step(s, Init);
            Entries(r) == Entries(s) && s.log == r.log
  {}

  lemma AppendedByOne(e: Event)
    ensures Appended([e]) == if e.Append? then [e.entry] else []
  {
    assert [e][1..] == [];
  }

  lemma AppendEntries(s: State, entry: Entry)
    requires QueueInv(s)
    ensures var r := Step(s, Append(entry));
            Entries(r) == Entries(s) + [entry] && s.log == r.log
  {}

  lemma SameUpToReplacement(es: seq<Event>, a: seq<Entry>)
    ensures AllUpToReplacement(es, a, a)
  {}

  lemma ReplaceEntries(s: State, msg: Message)
    requires QueueInv(s)
    ensures AllUpToReplacement([Replace(msg)], Entries(s), Entries(Step(s, Replace(msg))))
    ensures s.log == Step(s, Replace(msg)).log
  {
    var es, i := [Replace(msg)], FirstWithId(s.messages, msg.remoteId);
    if msg.remoteId != "" && i < |s.messages| && i >= s.next {
      var new_ := s.messages[i].(msg := msg);
      var k := |s.log| + i - s.next;
      assert Entries(Step(s, Replace(msg))) == Entries(s)[k := new_];
      assert Replace(msg) in es && UpToReplacement(es, Entries(s)[k], new_);
    }
  }

  /** Between two loads, under every interleaving of the other events, the messages shown
      followed by those that wait are the ones appended, in order, each exactly once, up to
      replacement; and the calls of `displayMessage` only ever grow in number. */
  lemma {:induction false} FifoExactlyOnce(s: State, es: seq<Event>, t: State)
    requires QueueInv(s) && Run(s, es, t) && Load !in es
    ensures QueueInv(t) && s.log <= t.log
    ensures AllUpToReplacement(es, Entries(s) + Appended(es), Entries(t))
    decreases |es|
  {
    hide Run, Step, Entries, Appended, AllUpToReplacement, QueueInv;
    if es == [] {
      RunNothing(s, t);
      SameUpToReplacement(es, Entries(s));
      NoneAppended(Entries(s));
    } else {
      RunFirst(s, es, t);
      var e, rest, r := es[0], es[1..], Step(s, es[0]);
      assert es == [e] + rest;
      StepEntries(s, e);
      FifoExactlyOnce(r, rest, t);
      InBounds(t);
      AllCompose(e, rest, Entries(s) + Appended([e]), Entries(r), Appended(rest), Entries(t));
      AppendedCons(e, rest, Entries(s));
    }
  }

  lemma RunNothing(s: State, t: State)
    requires QueueInv(s) && Run(s, [], t)
    ensures s == t && s.next <= |s.messages|
  {}

  lemma RunFirst(s: State, es: seq<Event>, t: State)
    requires QueueInv(s) && es != [] && Run(s, es, t)
    ensures Enabled(s, es[0]) && Run(Step(s, es[0]), es[1..], t) && s.next <= |s.messages|
    ensures QueueInv(Step(s, es[0])) && Step(s, es[0]).next <= |Step(s, es[0]).messages|
  {
    hide Step;
  }

  lemma InBounds(s: State)
    requires QueueInv(s)
    ensures s.next <= |s.messages|
  {}

  lemma NoneAppended(a: seq<Entry>)
    ensures a + Appended([]) == a
  {}

  lemma AppendedCons(e: Event, rest: seq<Event>, a: seq<Entry>)
    ensures (a + Appended([e])) + Appended(rest) == a + Appended([e] + rest)
  {
    AppendedByOne(e);
    assert ([e] + rest)[1..] == rest;
    assert Appended([e] + rest) == Appended([e]) + Appended(rest);
  }

  lemma AllCompose(e: Event, rest: seq<Event>, a: seq<Entry>, b: seq<Entry>, tail: seq<Entry>, c: seq<Entry>)
    requires AllUpToReplacement([e], a, b) && AllUpToReplacement(rest, b + tail, c)
    ensures AllUpToReplacement([e] + rest, a + tail, c)
  {
    forall i | 0 <= i < |a + tail| ensures UpToReplacement([e] + rest, (a + tail)[i], c[i]) {
      assert UpToReplacement(rest, (b + tail)[i], c[i]);
      assert (a + tail)[i] == (b + tail)[i] || UpToReplacement([e], (a + tail)[i], (b + tail)[i]);
      ReplacementsCompose(e, rest, (a + tail)[i], (b + tail)[i], c[i]);
    }
  }

  lemma ReplacementsCompose(e: Event, rest: seq<Event>, a: Entry, b: Entry, c: Entry)
    requires a == b || UpToReplacement([e], a, b)
    requires UpToReplacement(rest, b, c)
    ensures UpToReplacement([e] + rest, a, c)
  {
    assert forall x :: x in [e] + rest <==> x == e || x in rest;
  }

  /** The replacement reaches slot `i`: the message there waits, has this id, and is the
      first with it in the array. */
  ghost predicate Hits(s: State, msg: Message, i: nat)
    requires s.next <= |s.messages|
  {
    msg.remoteId != "" && i >= |s.log| && FirstAt(s.messages, msg.remoteId, s.next + i - |s.log|)
  }

  /** The message of the last replacement in the run that reached slot `i`, or `msg`. */
  ghost function LastHit(s: State, es: seq<Event>, i: nat, msg: Message): Message
    requires QueueInv(s)
    decreases |es|
  {
    if es == [] || !Enabled(s, es[0]) then msg
    else LastHit(Step(s, es[0]), es[1..], i, if es[0].Replace? && Hits(s, es[0].msg, i) then es[0].msg else msg)
  }

  lemma StepSlot(s: State, e: Event, i: nat)
    requires QueueInv(s) && Enabled(s, e) && !e.Load? && i < |Entries(s)|
    ensures var r := Step(s, e);
            && i < |Entries(r)|
            && Entries(r)[i] == if e.Replace? && Hits(s, e.msg, i) then Entries(s)[i].(msg := e.msg) else Entries(s)[i]
  {
    match e
    case Append(entry) => AppendEntries(s, entry);
    case Replace(msg) => ReplaceSlot(s, msg, i);
    case SetActive(value, timeLeft) => SetActiveEntries(s, value, timeLeft);
    case IdleCallback(timeLeft) => CallbackEntries(s, timeLeft);
    case Init => InitEntries(s);
  }

  lemma ReplaceSlot(s: State, msg: Message, i: nat)
    requires QueueInv(s) && i < |Entries(s)|
    ensures var r := Step(s, Replace(msg));
            && |Entries(r)| == |Entries(s)|
            && Entries(r)[i] == if Hits(s, msg, i) then Entries(s)[i].(msg := msg) else Entries(s)[i]
  {
    hide FirstAt, FirstWithId, Step, LogEntries;
    SameLength(s, msg);
    if i >= |s.log| { ReplacedAt(s, msg, s.next + i - |s.log|); }
  }

  /** Which message stands in a slot after a whole run without a load: that of the last
      replacement that reached the slot while its message waited, else the one it had. For a
      message appended during the run, take `s` just after its append. */
  lemma {:induction false} SlotAfterRun(s: State, es: seq<Event>, t: State, i: nat)
    requires QueueInv(s) && Run(s, es, t) && Load !in es && i < |Entries(s)|
    ensures QueueInv(t) && i < |Entries(t)|
    ensures Entries(t)[i] == Entries(s)[i].(msg := LastHit(s, es, i, Entries(s)[i].msg))
    decreases |es|
  {
    if es != [] {
      StepSlot(s, es[0], i);
      hide Step, Entries, Hits, QueueInv;
      SlotAfterRun(Step(s, es[0]), es[1..], t, i);
    }
  }

  /** A message appended in state `s`, at the end of a run that follows. */
  lemma AppendedSlotAfterRun(s: State, entry: Entry, es: seq<Event>, t: State)
    requires QueueInv(s) && Run(Step(s, Append(entry)), es, t) && Load !in es
    ensures var i := |Entries(s)|;
            && QueueInv(t) && i < |Entries(t)|
            && Entries(t)[i] == entry.(msg := LastHit(Step(s, Append(entry)), es, i, entry.msg))
  {
    AppendEntries(s, entry);
    hide Step, Entries;
    SlotAfterRun(Step(s, Append(entry)), es, t, |Entries(s)|);
  }

  /** From a load on: exactly the messages appended since, when none was replaced. */
  lemma FifoSinceLoad(s: State, es: seq<Event>, t: State)
    requires QueueInv(s) && Run(Step(s, Load), es, t) && Load !in es
    requires forall e :: e in es ==> !e.Replace?
    ensures QueueInv(t) && Entries(t) == Appended(es)
  {
    hide Run, Step, Entries, Appended, AllUpToReplacement;
    LoadEmpties(s);
    FifoExactlyOnce(Step(s, Load), es, t);
    assert [] + Appended(es) == Appended(es);
    NoReplacements(es, Appended(es), Entries(t));
  }

  lemma LoadEmpties(s: State)
    requires QueueInv(s)
    ensures QueueInv(Step(s, Load)) && Entries(Step(s, Load)) == []
  {}

  lemma NoReplacements(es: seq<Event>, a: seq<Entry>, b: seq<Entry>)
    requires AllUpToReplacement(es, a, b) && forall e :: e in es ==> !e.Replace?
    ensures a == b
  {
    forall i | 0 <= i < |a| ensures a[i] == b[i] {
      assert UpToReplacement(es, a[i], b[i]);
    }
  }

  /** A run shows one message, and one more each time that time remained, as far as there
      are messages; it stays pending exactly if some still wait. It requests auto-scroll for
      the message that was last when it began, if it comes to show that one, and for no
      other. */
  lemma RunShows(s: State, timeLeft: nat)
    requires Inv(s) && s.pending
    ensures var r := Display(s, timeLeft);
            var waiting := |Undisplayed(s)|;
            && waiting >= 1
            && |r.log| == |s.log| + (if timeLeft + 1 <= waiting then timeLeft + 1 else waiting)
            && (r.pending <==> Undisplayed(r) != [])
            && forall i :: |s.log| <= i < |r.log| ==>
                 (r.log[i].autoScroll <==> i + 1 == |Entries(s)|) && r.log[i].entry == Entries(s)[i]
  {
    DisplayKeepsEntries(s, timeLeft);
  }

  // ---- What wakes the display, and what does not ----

  /** Activating a browser whose display is not pending shows messages at once; any other
      change of activity shows none. */
  lemma ActivationShows(s: State, value: bool, timeLeft: nat)
    requires Inv(s)
    ensures var r := Step(s, SetActive(value, timeLeft));
            var waiting := |Undisplayed(s)|;
            if value && !s.pending && s.messages != [] then
              && r.active && waiting >= 1
              && |r.log| == |s.log| + (if timeLeft + 1 <= waiting then timeLeft + 1 else waiting)
              && (r.pending <==> Undisplayed(r) != [])
            else r == s.(active := value)
  {
    if value && !s.pending && s.messages != [] {
      DisplayMoves(s.(active := true, pending := true), timeLeft);
    }
  }

  /** An append shows nothing at once; the display is pending afterwards if it was or if the
      browser is active, loading or not. */
  lemma AppendShowsNothing(s: State, entry: Entry)
    requires QueueInv(s)
    ensures var r := Step(s, Append(entry));
            r.log == s.log && (r.pending <==> s.pending || s.active)
  {}

  /** While the display is not pending, as in an inactive browser or after `init`, nothing is
      shown until an activation or an append to an active browser, whatever callbacks are
      still outstanding. */
  lemma {:induction false} SuspendedShowsNothing(s: State, es: seq<Event>, t: State)
    requires QueueInv(s) && Run(s, es, t) && !s.pending && Load !in es
    requires forall e :: e in es ==> !(e.SetActive? && e.value) && !(s.active && e.Append?)
    ensures t.log == s.log && !t.pending
    decreases |es|
  {
    if es != [] {
      assert es[0] in es;
      SuspendedStep(s, es[0]);
      hide Step;
      SuspendedShowsNothing(Step(s, es[0]), es[1..], t);
    }
  }

  lemma SuspendedStep(s: State, e: Event)
    requires QueueInv(s) && Enabled(s, e) && !s.pending && !e.Load?
    requires !(e.SetActive? && e.value) && !(s.active && e.Append?)
    ensures var r := Step(s, e);
            r.log == s.log && !r.pending && (r.active ==> s.active)
  {}

  lemma InitSuspends(s: State, es: seq<Event>, t: State)
    requires QueueInv(s) && Run(Step(s, Init), es, t) && Load !in es
    requires forall e :: e in es ==> !(e.SetActive? && e.value) && !(s.active && e.Append?)
    ensures t.log == s.log && !t.pending
  {
    SuspendedShowsNothing(Step(s, Init), es, t);
  }

  function LastActive(es: seq<Event>, active: bool): bool {
    if es == [] then active else LastActive(es[1..], if es[0].SetActive? then es[0].value else active)
  }

  function LastLoading(es: seq<Event>, loading: bool): bool {
    if es == [] then loading
    else LastLoading(es[1..], if es[0].Init? then true else if es[0].Load? then false else loading)
  }

  /** Activity is as last set, and the browser is loading from `init` to the load event. */
  lemma {:induction false} FlagsAreLast(s: State, es: seq<Event>, t: State)
    requires QueueInv(s) && Run(s, es, t)
    ensures t.active == LastActive(es, s.active) && t.loading == LastLoading(es, s.loading)
    decreases |es|
  {
    if es != [] {
      StepFlags(s, es[0]);
      hide Step, QueueInv;
      FlagsAreLast(Step(s, es[0]), es[1..], t);
    }
  }

  lemma StepFlags(s: State, e: Event)
    requires QueueInv(s) && Enabled(s, e)
    ensures var r := Step(s, e);
            && r.active == (if e.SetActive? then e.value else s.active)
            && r.loading == (if e.Init? then true else if e.Load? then false else s.loading)
  {
    hide ShownNext;
  }

  // ---- Callbacks ----

  /** The outstanding callbacks other than the one that a pending display waits for. */
  function Stale(s: State): int {
    s.callbacks - (if s.pending then 1 else 0)
  }

  /** Resets of a pending display, each of which leaves its callback behind. */
  ghost function Abandoned(s: State, es: seq<Event>): nat
    requires QueueInv(s)
    decreases |es|
  {
    if es == [] || !Enabled(s, es[0]) then 0
    else (if (es[0].Init? || es[0].Load?) && s.pending then 1 else 0) + Abandoned(Step(s, es[0]), es[1..])
  }

  /** Callbacks that find no display pending. */
  ghost function RunInVain(s: State, es: seq<Event>): nat
    requires QueueInv(s)
    decreases |es|
  {
    if es == [] || !Enabled(s, es[0]) then 0
    else (if es[0].IdleCallback? && !s.pending then 1 else 0) + RunInVain(Step(s, es[0]), es[1..])
  }

  /** No callback is lost and none is requested twice: under every interleaving the stale ones
      are those that resets left behind, less those that have run in vain. */
  lemma {:induction false} CallbacksConserved(s: State, es: seq<Event>, t: State)
    requires QueueInv(s) && Run(s, es, t)
    ensures Stale(t) + RunInVain(s, es) == Stale(s) + Abandoned(s, es)
    decreases |es|
  {
    if es != [] {
      StepConservesCallbacks(s, es[0]);
      hide Step, Stale;
      CallbacksConserved(Step(s, es[0]), es[1..], t);
    }
  }

  lemma StepConservesCallbacks(s: State, e: Event)
    requires QueueInv(s) && Enabled(s, e)
    ensures Stale(Step(s, e)) + (if e.IdleCallback? && !s.pending then 1 else 0)
         == Stale(s) + (if (e.Init? || e.Load?) && s.pending then 1 else 0)
  {
    hide ShownNext;
  }

  /** From the start on: without resets a display has one callback while it is pending and
      none otherwise. */
  lemma SinceStart(es: seq<Event>, t: State)
    requires Run(START, es, t)
    ensures Inv(t) && t.active == LastActive(es, false) && t.loading == LastLoading(es, false)
    ensures Init !in es && Load !in es ==> t.callbacks == if t.pending then 1 else 0
  {
    RunKeepsInv(START, es, t);
    FlagsAreLast(START, es, t);
    CallbacksConserved(START, es, t);
    if Init !in es && Load !in es { NothingAbandoned(START, es); }
  }

  lemma {:induction false} NothingAbandoned(s: State, es: seq<Event>)
    requires QueueInv(s) && Init !in es && Load !in es
    ensures Abandoned(s, es) == 0
    decreases |es|
  {
    if es != [] && Enabled(s, es[0]) {
      assert es[0] in es;
      NothingAbandoned(Step(s, es[0]), es[1..]);
    }
  }

  // ---- Completion ----

  /** The events that neither add messages nor reset the queue. */
  predicate Quiet(e: Event) {
    e.Replace? || e.SetActive? || e.IdleCallback?
  }

  function CallbackCount(es: seq<Event>): nat {
    if es == [] then 0 else (if es[0].IdleCallback? then 1 else 0) + CallbackCount(es[1..])
  }

  /** The display is pending if anything waits. */
  predicate Draining(s: State) {
    s.pending || s.messages == []
  }

  /** The queue never grows, and every callback shortens it. */
  lemma QuietStep(s: State, e: Event)
    requires Inv(s) && Enabled(s, e) && Quiet(e) && Draining(s)
    ensures var r := Step(s, e);
            && Inv(r) && Draining(r)
            && |Undisplayed(r)| <= |Undisplayed(s)|
            && (e.IdleCallback? && s.messages != [] ==> |Undisplayed(r)| < |Undisplayed(s)|)
  {
    StepKeepsInv(s, e);
    if e.IdleCallback? {
      ShorterAfterDisplay(s.(callbacks := s.callbacks - 1), e.timeLeft);
    }
  }

  lemma ShorterAfterDisplay(s: State, timeLeft: nat)
    requires QueueInv(s) && (s.pending <==> s.messages != [])
    ensures var r := Display(s, timeLeft);
            && Draining(r)
            && |Undisplayed(r)| <= |Undisplayed(s)|
            && (s.messages != [] ==> |Undisplayed(r)| < |Undisplayed(s)|)
  {
    hide ShownNext;
  }

  /** Without appends or resets, under any interleaving of replacements, activations and
      callbacks, as many callbacks as messages wait drain the queue: all of it is shown, in
      order, up to replacement, however little time each callback has. A pending display
      always has a callback outstanding (`Inv`), so a run can always go on to its end. */
  lemma {:induction false} QueueDrains(s: State, es: seq<Event>, t: State)
    requires Inv(s) && Run(s, es, t) && Draining(s)
    requires forall e :: e in es ==> Quiet(e)
    requires CallbackCount(es) >= |Undisplayed(s)|
    ensures t.messages == [] && !t.pending
    ensures AllUpToReplacement(es, Entries(s), LogEntries(t.log))
  {
    QueueEmpties(s, es, t);
    NothingAppended(es);
    FifoExactlyOnce(s, es, t);
    hide AllUpToReplacement;
    assert Entries(s) + [] == Entries(s) && Entries(t) == LogEntries(t.log);
  }

  lemma {:induction false} QueueEmpties(s: State, es: seq<Event>, t: State)
    requires Inv(s) && Run(s, es, t) && Draining(s)
    requires forall e :: e in es ==> Quiet(e)
    requires CallbackCount(es) >= |Undisplayed(s)|
    ensures Inv(t) && t.messages == [] && !t.pending
    decreases |es|
  {
    if es != [] {
      assert es[0] in es;
      QuietStep(s, es[0]);
      hide Step;
      QueueEmpties(Step(s, es[0]), es[1..], t);
    }
  }

  lemma {:induction false} NothingAppended(es: seq<Event>)
    requires forall e :: e in es ==> Quiet(e)
    ensures Appended(es) == [] && Load !in es
  {
    if es != [] {
      assert es[0] in es;
      NothingAppended(es[1..]);
    }
  }

  // ---- The object ----

  class ConversationBrowser {
    var messageDisplayPending: bool
    var pendingMessages: seq<Entry>
    var nextPendingMessageIndex: nat
    var pendingMessagesDisplayed: nat
    var isActive: bool
    var loading: bool
    var idleCallbacks: nat
    var shown: seq<Shown>

    ghost function Abs(): State
      reads this
    {
      State(pendingMessages, nextPendingMessageIndex, pendingMessagesDisplayed, messageDisplayPending,
            isActive, loading, idleCallbacks, shown)
    }

    constructor ()
      ensures Abs() == START && Inv(Abs())
    {
      messageDisplayPending := false;
      pendingMessages := [];
      nextPendingMessageIndex := 0;
      pendingMessagesDisplayed := 0;
      isActive, loading, idleCallbacks, shown := false, false, 0, [];
    }

    /** Returns no entry when every message has been shown. */
    method GetNextPendingMessage() returns (result: seq<Entry>)
      requires nextPendingMessageIndex <= |pendingMessages|
      modifies this`pendingMessages, this`nextPendingMessageIndex
      ensures var s := old(Abs());
              if s.next == |s.messages| then result == [] && Abs() == s
              else
                && result == [s.messages[s.next]]
                && Abs() == if s.next + 1 == |s.messages| then s.(messages := [], next := 0) else s.(next := s.next + 1)
    {
      var length := |pendingMessages|;
      if nextPendingMessageIndex == length {
        return [];
      }
      result := [pendingMessages[nextPendingMessageIndex]];
      nextPendingMessageIndex := nextPendingMessageIndex + 1;
      if nextPendingMessageIndex == length {
        pendingMessages := [];
        nextPendingMessageIndex := 0;
      }
    }

    /** One round of the loop: no message is left, or the next one is shown, with auto-scroll
        unless fewer than `max` messages have been. */
    method DisplayNextMessage(max: nat, appended: nat) returns (done: bool)
      requires nextPendingMessageIndex <= |pendingMessages|
      modifies this
      ensures var s := old(Abs());
              && (done <==> s.next == |s.messages|)
              && Abs() == if done then s else NextShown(s, max, appended)
    {
      var msg := GetNextPendingMessage();
      if msg == [] {
        return true;
      }
      pendingMessagesDisplayed := pendingMessagesDisplayed + 1;
      shown := shown + [Shown(msg[0], !(pendingMessagesDisplayed < max), appended)];
      done := false;
    }

    method DisplayPendingMessages(timeLeft: nat)
      requires QueueInv(Abs()) && (messageDisplayPending ==> pendingMessages != [])
      modifies this
      ensures Abs() == Display(old(Abs()), timeLeft)
    {
      hide Display, ShownNext, AfterRounds, NextShown, Undisplayed, QueueInv;
      NotPending(Abs(), timeLeft);
      if !messageDisplayPending {
        return;
      }
      ghost var s := Abs();
      ghost var waiting := |s.messages| - s.next;
      NoRounds(s);
      var max := |pendingMessages|;
      var appended := |shown| + |pendingMessages| - nextPendingMessageIndex;
      var rounds, again := 0, true;
      while again
        invariant 0 <= rounds <= waiting && rounds <= timeLeft + 1
        invariant again ==> rounds <= timeLeft
        invariant !again ==> rounds == timeLeft + 1
        invariant Abs() == AfterRounds(s, rounds)
        decreases timeLeft + 1 - rounds, again
      {
        OneRound(s, rounds);
        var done := DisplayNextMessage(max, appended);
        if done {
          break;
        }
        rounds := rounds + 1;
        again := rounds <= timeLeft;
      }
      RunCompletes(s, timeLeft, rounds);
      if pendingMessagesDisplayed < max {
        idleCallbacks := idleCallbacks + 1;
        return;
      }
      messageDisplayPending := false;
      pendingMessagesDisplayed := 0;
    }

    method StartDisplayingPendingMessages(delayed: bool, timeLeft: nat)
      requires QueueInv(Abs()) && pendingMessages != []
      modifies this
      ensures var s := old(Abs());
              Abs() == if s.pending then s
                       else if delayed then s.(pending := true, callbacks := s.callbacks + 1)
                       else Display(s.(pending := true), timeLeft)
    {
      if messageDisplayPending {
        return;
      }
      messageDisplayPending := true;
      if delayed {
        idleCallbacks := idleCallbacks + 1;
      } else {
        DisplayPendingMessages(timeLeft);
      }
    }

    method AppendMessage(entry: Entry)
      requires Inv(Abs())
      modifies this
      ensures Abs() == Step(old(Abs()), Append(entry)) && Inv(Abs())
    {
      StepKeepsInv(Abs(), Append(entry));
      pendingMessages := pendingMessages + [entry];
      if isActive {
        StartDisplayingPendingMessages(true, 0);
      }
    }

    method ReplaceMessage(msg: Message)
      requires Inv(Abs())
      modifies this
      ensures Abs() == Step(old(Abs()), Replace(msg)) && Inv(Abs())
    {
      StepKeepsInv(Abs(), Replace(msg));
      if msg.remoteId == "" {
        return;
      }
      if messageDisplayPending || |pendingMessages| > 0 {
        var pendingIndex := FirstWithId(pendingMessages, msg.remoteId);
        if pendingIndex < |pendingMessages| && pendingIndex >= nextPendingMessageIndex {
          pendingMessages := pendingMessages[pendingIndex := pendingMessages[pendingIndex].(msg := msg)];
        }
      }
    }

    method SetIsActive(value: bool, timeLeft: nat)
      requires Inv(Abs())
      modifies this
      ensures Abs() == Step(old(Abs()), SetActive(value, timeLeft)) && Inv(Abs())
    {
      StepKeepsInv(Abs(), SetActive(value, timeLeft));
      isActive := value;
      if value && |pendingMessages| > 0 {
        StartDisplayingPendingMessages(false, timeLeft);
      }
    }

    /** The event loop runs one of the requested callbacks. */
    method RunIdleCallback(timeLeft: nat)
      requires Inv(Abs()) && idleCallbacks > 0
      modifies this
      ensures Abs() == Step(old(Abs()), IdleCallback(timeLeft)) && Inv(Abs())
    {
      StepKeepsInv(Abs(), IdleCallback(timeLeft));
      idleCallbacks := idleCallbacks - 1;
      DisplayPendingMessages(timeLeft);
    }

    method InitConversation()
      requires Inv(Abs())
      modifies this
      ensures Abs() == Step(old(Abs()), Init) && Inv(Abs())
    {
      messageDisplayPending := false;
      loading := true;
    }

    method OnLoad()
      requires Inv(Abs())
      modifies this
      ensures Abs() == Step(old(Abs()), Load) && Inv(Abs())
    {
      messageDisplayPending := false;
      pendingMessages := [];
      nextPendingMessageIndex := 0;
      pendingMessagesDisplayed := 0;
      loading := false;
      shown := [];
    }
  }

  /** After some rounds of the loop, before the run ends. */
  ghost function AfterRounds(s: State, rounds: nat): State
    requires s.next + rounds <= |s.messages|
  {
    var r := s.(displayed := s.displayed + rounds, log := s.log + ShownNext(s, rounds));
    if s.next + rounds < |s.messages| then r.(next := s.next + rounds) else r.(messages := [], next := 0)
  }

  lemma NotPending(s: State, timeLeft: nat)
    requires QueueInv(s)
    ensures !s.pending ==> Display(s, timeLeft) == s
  {
    hide ShownNext;
  }

  lemma NoRounds(s: State)
    requires QueueInv(s) && s.messages != []
    ensures s.displayed == s.next < |s.messages| && AfterRounds(s, 0) == s
  {}

  /** One message more is shown, of `appended` messages since the last load. */
  ghost function NextShown(s: State, max: nat, appended: nat): State
    requires s.next < |s.messages|
  {
    var r := if s.next + 1 == |s.messages| then s.(messages := [], next := 0) else s.(next := s.next + 1);
    r.(displayed := s.displayed + 1,
       log := s.log + [Shown(s.messages[s.next], !(s.displayed + 1 < max), appended)])
  }

  /** One round more, or none when every message has been shown. */
  lemma OneRound(s: State, rounds: nat)
    requires s.displayed == s.next && s.next + rounds <= |s.messages|
    ensures var r := AfterRounds(s, rounds);
            && r.next <= |r.messages|
            && (r.next == |r.messages| <==> s.next + rounds == |s.messages|)
            && (s.next + rounds < |s.messages| ==>
                AfterRounds(s, rounds + 1) == NextShown(r, |s.messages|, |s.log| + |s.messages| - s.next))
  {
    if s.next + rounds < |s.messages| {
      ShownOneMore(s, rounds);
      hide ShownNext;
      var last := Shown(s.messages[s.next + rounds], s.next + rounds + 1 == |s.messages|,
                        |s.log| + |s.messages| - s.next);
      assert s.log + (ShownNext(s, rounds) + [last]) == (s.log + ShownNext(s, rounds)) + [last];
    }
  }

  lemma ShownOneMore(s: State, rounds: nat)
    requires s.next + rounds < |s.messages|
    ensures ShownNext(s, rounds + 1)
         == ShownNext(s, rounds) + [Shown(s.messages[s.next + rounds], s.next + rounds + 1 == |s.messages|,
                                          |s.log| + |s.messages| - s.next)]
  {
    var shown := ShownNext(s, rounds + 1);
    assert shown[..rounds] == ShownNext(s, rounds);
    assert |Undisplayed(s)| == |s.messages| - s.next;
    assert shown == shown[..rounds] + [shown[rounds]];
  }

  /** What the run does after its last round. */
  lemma RunCompletes(s: State, timeLeft: nat, rounds: nat)
    requires QueueInv(s) && s.pending && s.messages != []
    requires rounds == (if timeLeft + 1 <= |s.messages| - s.next then timeLeft + 1 else |s.messages| - s.next)
    ensures s.next + rounds <= |s.messages|
    ensures var r := AfterRounds(s, rounds);
            Display(s, timeLeft)
            == if r.displayed < |s.messages| then r.(callbacks := r.callbacks + 1)
               else r.(pending := false, displayed := 0)
  {
    hide ShownNext;
  }
}
