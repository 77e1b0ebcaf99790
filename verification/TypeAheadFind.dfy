/** Find as you type: the counter of bad keys since the last match lets the component skip
    searches whose outcome it already knows. */
module TypeAheadFind {

  /** Which strings occur on the page: fixed while one find goes on. Every prefix of a
      string that occurs also occurs. */
  ghost predicate ClosedUnderPrefixes(occurs: string -> bool) {
    occurs("") && forall s: string, t: string :: t <= s && occurs(s) ==> occurs(t)
  }

  /** `mSearchString`, `mBadKeysSinceMatch`, and whether `mEventTarget` is set. */
  datatype State = State(search: string, badKeys: nat, finding: bool)

  /** What the status bar says after a key. */
  datatype Report = Nothing | Found | NotFound

  /** A step's new state, its report, and the string that the second find instance
      highlights again, if any. */
  datatype Result = Result(state: State, report: Report, rehighlight: seq<string>)

  /** The keys that reach `processKey`; `typed` is the lower case of the typed character,
      which is one code unit for all but a few characters. */
  datatype Key =
    | Escape
    | BackSpace
    | Control
    | Character(typed: string)

  function Verdict(found: bool): Report {
    if found then Found else NotFound
  }

  function StopFind(s: State, clear: bool): State {
    s.(finding := false, search := if clear then "" else s.search)
  }

  function StartFind(): State {
    State("", 0, true)
  }

  function ProcessKey(occurs: string -> bool, s: State, key: Key): Result {
    match key
    case Escape => Result(StopFind(s, false), Nothing, [])
    case Control => Result(s, Nothing, [])
    case BackSpace =>
      if |s.search| <= 1 then Result(StopFind(s, true), Nothing, [])
      else
        var search := s.search[..|s.search| - 1];
        var badKeys := if s.badKeys == 0 then 0 else s.badKeys - 1;
        Result(State(search, badKeys, s.finding), Verdict(badKeys == 0 && occurs(search)), [])
    case Character(typed) =>
      if s.badKeys >= 3 then Result(s, Nothing, [])
      else
        var search := s.search + typed;
        var found := s.badKeys == 0 && occurs(search);
        Result(State(search, if found then s.badKeys else s.badKeys + 1, s.finding), Verdict(found),
               if s.badKeys == 0 && !found && s.search != "" then [s.search] else [])
  }

  /** The number of units by which the string exceeds its longest prefix that occurs. */
  function Excess(occurs: string -> bool, search: string): (d: nat)
    ensures d <= |search|
    ensures occurs("") ==> occurs(search[..|search| - d])
    ensures forall n :: |search| - d < n <= |search| ==> !occurs(search[..n])
  {
    if search == "" then 0
    else if occurs(search) then
      assert search[..|search|] == search;
      0
    else
      var d := 1 + Excess(occurs, search[..|search| - 1]);
      assert forall n :: 0 <= n <= |search| - 1 ==> search[..|search| - 1][..n] == search[..n];
      assert search[..|search|] == search;
      d
  }

  /** A find-again command for the current string, which stops the find. */
  function FindAgain(occurs: string -> bool, s: State): Result {
    Result(StopFind(s, false), Verdict(s.badKeys == 0 && occurs(s.search)), [])
  }

  // ---- Every run of keys ----

  /** What makes every skipped search safe, also after the find has been stopped without
      clearing the string. */
  ghost predicate Inv(occurs: string -> bool, s: State) {
    s.finding || s.search != "" ==> s.badKeys <= 3 && s.badKeys <= Excess(occurs, s.search)
  }

  /** With one unit a key the counter is the excess itself. */
  ghost predicate Exact(occurs: string -> bool, s: State) {
    s.finding || s.search != "" ==> s.badKeys <= 3 && s.badKeys == Excess(occurs, s.search)
  }

  /** The keys a find receives until it stops. */
  ghost predicate Run(occurs: string -> bool, s: State, keys: seq<Key>, t: State)
    decreases |keys|
  {
    if keys == [] then s == t
    else s.finding && Run(occurs, ProcessKey(occurs, s, keys[0]).state, keys[1..], t)
  }

  predicate Typing(key: Key) {
    key.Character? ==> key.typed != ""
  }

  predicate SingleUnit(key: Key) {
    key.Character? ==> |key.typed| == 1
  }

  lemma ExcessShorter(occurs: string -> bool, search: string)
    requires ClosedUnderPrefixes(occurs) && search != ""
    ensures var shorter := search[..|search| - 1];
            Excess(occurs, shorter) == (if occurs(search) then 0 else Excess(occurs, search) - 1)
  {
    if occurs(search) {
      assert occurs(search[..|search| - 1]);
    }
  }

  lemma {:induction false} ExcessLonger(occurs: string -> bool, search: string, typed: string)
    requires ClosedUnderPrefixes(occurs) && !occurs(search)
    ensures Excess(occurs, search + typed) == Excess(occurs, search) + |typed|
    decreases |typed|
  {
    if typed == "" {
      assert search + typed == search;
    } else {
      var shorter := typed[..|typed| - 1];
      assert (search + typed)[..|search + typed| - 1] == search + shorter;
      assert search <= search + typed;
      ExcessLonger(occurs, search, shorter);
    }
  }

  lemma ExcessZeroIff(occurs: string -> bool, search: string)
    requires ClosedUnderPrefixes(occurs)
    ensures Excess(occurs, search) == 0 <==> occurs(search)
  {}

  /** One key: whatever is reported is what a fresh search for the current string would
      report, although the search is skipped whenever the counter is not zero. */
  lemma ReportIsFreshSearch(occurs: string -> bool, s: State, key: Key)
    requires ClosedUnderPrefixes(occurs) && s.finding && Inv(occurs, s) && Typing(key)
    ensures var r := ProcessKey(occurs, s, key);
            && Inv(occurs, r.state)
            && (r.report != Nothing ==> r.report == Verdict(occurs(r.state.search)))
  {
    match key
    case BackSpace => BackSpaceReport(occurs, s);
    case Character(typed) => CharacterReport(occurs, s, typed);
    case _ =>
  }

  lemma BackSpaceReport(occurs: string -> bool, s: State)
    requires ClosedUnderPrefixes(occurs) && s.finding && Inv(occurs, s)
    ensures var r := ProcessKey(occurs, s, BackSpace);
            && Inv(occurs, r.state)
            && (r.report != Nothing ==> r.report == Verdict(occurs(r.state.search)))
  {
    hide Excess;
    if |s.search| > 1 {
      ExcessZeroIff(occurs, s.search);
      ExcessShorter(occurs, s.search);
      ExcessZeroIff(occurs, s.search[..|s.search| - 1]);
    }
  }

  lemma CharacterReport(occurs: string -> bool, s: State, typed: string)
    requires ClosedUnderPrefixes(occurs) && s.finding && Inv(occurs, s) && typed != ""
    ensures var r := ProcessKey(occurs, s, Character(typed));
            && Inv(occurs, r.state)
            && (r.report != Nothing ==> r.report == Verdict(occurs(r.state.search)))
  {
    hide Excess;
    ExcessZeroIff(occurs, s.search);
    ExcessZeroIff(occurs, s.search + typed);
    assert s.search <= s.search + typed;
    if s.badKeys > 0 { ExcessLonger(occurs, s.search, typed); }
  }

  /** Over every run of keys since the start of a find, whatever number of units they type. */
  lemma {:induction false} EveryReportIsFresh(occurs: string -> bool, s: State, keys: seq<Key>, t: State)
    requires ClosedUnderPrefixes(occurs) && Inv(occurs, s) && Run(occurs, s, keys, t)
    requires forall k :: k in keys ==> Typing(k)
    ensures Inv(occurs, t)
    ensures t.finding ==> forall key :: Typing(key) ==>
      var r := ProcessKey(occurs, t, key);
      r.report != Nothing ==> r.report == Verdict(occurs(r.state.search))
    ensures t.search != "" ==> FindAgain(occurs, t).report == Verdict(occurs(t.search))
    decreases |keys|
  {
    if keys == [] {
      ExcessZeroIff(occurs, t.search);
      if t.finding {
        forall key | Typing(key)
          ensures var r := ProcessKey(occurs, t, key);
                  r.report != Nothing ==> r.report == Verdict(occurs(r.state.search))
        {
          ReportIsFreshSearch(occurs, t, key);
        }
      }
    } else {
      ReportIsFreshSearch(occurs, s, keys[0]);
      EveryReportIsFresh(occurs, ProcessKey(occurs, s, keys[0]).state, keys[1..], t);
    }
  }

  // ---- The counter as a distance ----

  /** The key adds one unit past the longest prefix that occurs, or none. */
  ghost predicate AddsOne(occurs: string -> bool, s: State, key: Key) {
    key.Character? && key.typed != "" && s.badKeys < 3 && !(s.badKeys == 0 && occurs(s.search + key.typed)) ==>
      |key.typed| == 1 || (s.badKeys == 0 && occurs(s.search + key.typed[..|key.typed| - 1]))
  }

  /** The counter stays the distance to the longest prefix that occurs exactly when each
      key adds one unit past it, or none. */
  lemma StaysExactIff(occurs: string -> bool, s: State, key: Key)
    requires ClosedUnderPrefixes(occurs) && s.finding && Exact(occurs, s) && Typing(key)
    ensures Exact(occurs, ProcessKey(occurs, s, key).state) <==> AddsOne(occurs, s, key)
  {
    match key
    case BackSpace => BackSpaceStaysExact(occurs, s);
    case Character(typed) =>
      if s.badKeys < 3 {
        if s.badKeys > 0 { FurtherBadKey(occurs, s, typed); } else { FirstBadKey(occurs, s, typed); }
      }
    case _ =>
  }

  lemma BackSpaceStaysExact(occurs: string -> bool, s: State)
    requires ClosedUnderPrefixes(occurs) && s.finding && Exact(occurs, s)
    ensures Exact(occurs, ProcessKey(occurs, s, BackSpace).state)
  {
    hide Excess;
    if |s.search| > 1 {
      ExcessZeroIff(occurs, s.search);
      ExcessShorter(occurs, s.search);
    }
  }

  lemma FurtherBadKey(occurs: string -> bool, s: State, typed: string)
    requires ClosedUnderPrefixes(occurs) && s.finding && Exact(occurs, s) && 0 < s.badKeys < 3
    ensures Exact(occurs, ProcessKey(occurs, s, Character(typed)).state) <==> |typed| == 1
  {
    hide Excess;
    ExcessZeroIff(occurs, s.search);
    ExcessLonger(occurs, s.search, typed);
  }

  lemma FirstBadKey(occurs: string -> bool, s: State, typed: string)
    requires ClosedUnderPrefixes(occurs) && s.finding && Exact(occurs, s) && s.badKeys == 0 && typed != ""
    ensures Exact(occurs, ProcessKey(occurs, s, Character(typed)).state) <==> AddsOne(occurs, s, Character(typed))
  {
    hide Excess;
    var search := s.search + typed;
    var shorter := s.search + typed[..|typed| - 1];
    assert search[..|search| - 1] == shorter;
    ExcessZeroIff(occurs, s.search);
    ExcessZeroIff(occurs, search);
    ExcessShorter(occurs, search);
    ExcessZeroIff(occurs, shorter);
    if |typed| == 1 { assert shorter == s.search; }
  }

  /** With one code unit a key: the counter is at most three and is the distance to the
      longest prefix that occurs, and the second instance highlights that prefix. */
  lemma {:induction false} CounterIsDistance(occurs: string -> bool, s: State, keys: seq<Key>, t: State)
    requires ClosedUnderPrefixes(occurs) && Exact(occurs, s) && Run(occurs, s, keys, t)
    requires forall k :: k in keys ==> SingleUnit(k)
    ensures Exact(occurs, t)
    ensures t.finding ==> forall key :: SingleUnit(key) ==>
      var r := ProcessKey(occurs, t, key);
      var d := Excess(occurs, r.state.search);
      && (r.rehighlight != [] ==> d == 1 && r.rehighlight == [r.state.search[..|r.state.search| - d]])
      && (r.rehighlight != [] <==>
          key.Character? && t.search != "" && occurs(t.search) && !occurs(t.search + key.typed))
    decreases |keys|
  {
    if keys == [] {
      if t.finding {
        forall key | SingleUnit(key)
          ensures var r := ProcessKey(occurs, t, key);
                  var d := Excess(occurs, r.state.search);
                  && (r.rehighlight != [] ==> d == 1 && r.rehighlight == [r.state.search[..|r.state.search| - d]])
                  && (r.rehighlight != [] <==>
                      key.Character? && t.search != "" && occurs(t.search) && !occurs(t.search + key.typed))
        {
          ExcessZeroIff(occurs, t.search);
          StaysExactIff(occurs, t, key);
        }
      }
    } else {
      assert keys[0] in keys;
      StaysExactIff(occurs, s, keys[0]);
      CounterIsDistance(occurs, ProcessKey(occurs, s, keys[0]).state, keys[1..], t);
    }
  }

  // ---- Against a find without a counter ----

  /** What a key does to the string and the status bar when every key searches afresh: keys
      that type are ignored once the string exceeds what occurs by three. */
  datatype Output = Output(search: string, finding: bool, report: Report, rehighlight: seq<string>)

  function FreshKey(occurs: string -> bool, search: string, key: Key): Output {
    match key
    case Escape => Output(search, false, Nothing, [])
    case Control => Output(search, true, Nothing, [])
    case BackSpace =>
      if |search| <= 1 then Output("", false, Nothing, [])
      else
        var shorter := search[..|search| - 1];
        Output(shorter, true, if occurs(shorter) then Found else NotFound, [])
    case Character(typed) =>
      if Excess(occurs, search) >= 3 then Output(search, true, Nothing, [])
      else
        var longer := search + typed;
        var lost := search != "" && occurs(search) && !occurs(longer);
        Output(longer, true, if occurs(longer) then Found else NotFound, if lost then [search] else [])
  }

  /** The outputs of the keys, until the find stops. */
  function FreshOutputs(occurs: string -> bool, search: string, keys: seq<Key>): seq<Output>
    decreases |keys|
  {
    if keys == [] then []
    else
      var r := FreshKey(occurs, search, keys[0]);
      [r] + if r.finding then FreshOutputs(occurs, r.search, keys[1..]) else []
  }

  function Outputs(occurs: string -> bool, s: State, keys: seq<Key>): seq<Output>
    decreases |keys|
  {
    if keys == [] then []
    else
      var r := ProcessKey(occurs, s, keys[0]);
      [Output(r.state.search, r.state.finding, r.report, r.rehighlight)]
      + if r.state.finding then Outputs(occurs, r.state, keys[1..]) else []
  }

  lemma KeyLikeFresh(occurs: string -> bool, s: State, key: Key)
    requires ClosedUnderPrefixes(occurs) && s.finding && Exact(occurs, s) && SingleUnit(key)
    ensures var r := ProcessKey(occurs, s, key);
            && Output(r.state.search, r.state.finding, r.report, r.rehighlight) == FreshKey(occurs, s.search, key)
            && Exact(occurs, r.state)
  {
    hide Excess;
    StaysExactIff(occurs, s, key);
    ExcessZeroIff(occurs, s.search);
    ReportIsFreshSearch(occurs, s, key);
    if key.Character? { assert s.search <= s.search + key.typed; }
  }

  /** The counter is an optimisation: with one code unit a key, every run of keys makes the
      strings, the reports and the highlights of a find that always searches. */
  lemma {:induction false} OutputsAreFresh(occurs: string -> bool, s: State, keys: seq<Key>)
    requires ClosedUnderPrefixes(occurs) && s.finding && Exact(occurs, s)
    requires forall k :: k in keys ==> SingleUnit(k)
    ensures Outputs(occurs, s, keys) == FreshOutputs(occurs, s.search, keys)
    decreases |keys|
  {
    if keys != [] {
      assert keys[0] in keys;
      KeyLikeFresh(occurs, s, keys[0]);
      var r := ProcessKey(occurs, s, keys[0]);
      hide Excess, ProcessKey, FreshKey, Exact;
      if r.state.finding { OutputsAreFresh(occurs, r.state, keys[1..]); }
    }
  }

  lemma OutputsSinceStart(occurs: string -> bool, keys: seq<Key>)
    requires ClosedUnderPrefixes(occurs) && forall k :: k in keys ==> SingleUnit(k)
    ensures Outputs(occurs, StartFind(), keys) == FreshOutputs(occurs, "", keys)
  {
    StartIsExact(occurs);
    OutputsAreFresh(occurs, StartFind(), keys);
  }

  // ---- The string ----

  /** BackSpace takes back the last unit, whatever it was: string, counter and all. */
  lemma BackSpaceUndoes(occurs: string -> bool, s: State, c: char)
    requires ClosedUnderPrefixes(occurs) && s.finding && Exact(occurs, s)
    requires s.search != "" && s.badKeys < 3
    ensures ProcessKey(occurs, ProcessKey(occurs, s, Character([c])).state, BackSpace).state == s
  {
    hide Excess;
    var longer := s.search + [c];
    assert longer[..|longer| - 1] == s.search && s.search <= longer;
    ExcessZeroIff(occurs, s.search);
  }

  /** Every key, however many units it types: below the limit of the counter the string is
      extended by what is typed, and a key ignored at the limit changes nothing; BackSpace
      takes off the last unit; only Escape and an emptied string end the find. */
  lemma KeyEdits(occurs: string -> bool, s: State, key: Key)
    requires s.finding
    ensures var r := ProcessKey(occurs, s, key).state;
            && (key.Character? && s.badKeys < 3 ==> s.search <= r.search && r.search[|s.search|..] == key.typed)
            && (key.Character? && s.badKeys >= 3 ==> r == s)
            && (key.BackSpace? && s.search != "" ==> r.search + [s.search[|s.search| - 1]] == s.search)
            && (key.BackSpace? && s.search == "" ==> r.search == "")
            && (key.Escape? || key.Control? ==> r.search == s.search && r.badKeys == s.badKeys)
            && (r.finding <==> !key.Escape? && !(key.BackSpace? && r.search == ""))
  {}

  /** Find-again, like Escape, ends the find if there is one and keeps string and counter; it
      reports what a fresh search would, however often it is repeated. */
  lemma FindAgainKeeps(occurs: string -> bool, s: State)
    requires ClosedUnderPrefixes(occurs) && Inv(occurs, s)
    ensures var r := FindAgain(occurs, s);
            && !r.state.finding && r.state.search == s.search && r.state.badKeys == s.badKeys
            && r.state == ProcessKey(occurs, s, Escape).state && FindAgain(occurs, r.state) == r
            && (s.search != "" ==> r.report == Verdict(occurs(s.search)))
  {
    ExcessZeroIff(occurs, s.search);
  }

  /** A find that starts satisfies both invariants. */
  lemma StartIsExact(occurs: string -> bool)
    ensures Inv(occurs, StartFind()) && Exact(occurs, StartFind())
  {}

  /** From the start of a find, over every run of keys: every report is that of a fresh
      search, and so is a find-again. */
  lemma ReportsSinceStart(occurs: string -> bool, keys: seq<Key>, t: State)
    requires ClosedUnderPrefixes(occurs) && Run(occurs, StartFind(), keys, t)
    requires forall k :: k in keys ==> Typing(k)
    ensures t.finding ==> forall key :: Typing(key) ==>
      var r := ProcessKey(occurs, t, key);
      r.report != Nothing ==> r.report == Verdict(occurs(r.state.search))
    ensures t.search != "" ==> FindAgain(occurs, t).report == Verdict(occurs(t.search))
  {
    StartIsExact(occurs);
    EveryReportIsFresh(occurs, StartFind(), keys, t);
  }

  /** From the start of a find, with one code unit a key: the counter is at most three and
      is the distance to the longest prefix that occurs. */
  lemma DistanceSinceStart(occurs: string -> bool, keys: seq<Key>, t: State)
    requires ClosedUnderPrefixes(occurs) && Run(occurs, StartFind(), keys, t) && t.finding
    requires forall k :: k in keys ==> SingleUnit(k)
    ensures t.badKeys <= 3
    ensures var n := |t.search| - t.badKeys;
            && 0 <= n && occurs(t.search[..n])
            && forall m :: n < m <= |t.search| ==> !occurs(t.search[..m])
  {
    StartIsExact(occurs);
    CounterIsDistance(occurs, StartFind(), keys, t);
  }

  /** U+0130, whose lower case is the two units `i` and U+0307: on a page where neither
      occurs, one key takes the string two units past the empty prefix. */
  lemma TwoUnitKeyBreaksDistance()
    ensures var occurs := (s: string) => s == "";
            var r := ProcessKey(occurs, StartFind(), Character(['i', '\U{307}']));
            ClosedUnderPrefixes(occurs) && r.state.badKeys == 1 && Excess(occurs, r.state.search) == 2
  {
    var occurs := (s: string) => s == "";
    var search := ['i', '\U{307}'];
    assert search[..1] == ['i'] && ['i'][..0] == "";
    assert "" + search == search;
    assert Excess(occurs, ['i']) == 1 + Excess(occurs, "");
  }

  // ---- The object ----

  class Finder {
    const occurs: string -> bool
    var mSearchString: string
    var mBadKeysSinceMatch: nat
    var mEventTarget: bool
    var searches: nat          // calls of the first find instance

    ghost function Abs(): State
      reads this
    {
      State(mSearchString, mBadKeysSinceMatch, mEventTarget)
    }

    constructor (occurs: string -> bool)
      ensures this.occurs == occurs && Abs() == State("", 0, false) && searches == 0
    {
      this.occurs := occurs;
      mSearchString, mBadKeysSinceMatch, mEventTarget, searches := "", 0, false, 0;
    }

    method Find(search: string) returns (found: bool)
      modifies this`searches
      ensures found == occurs(search) && searches == old(searches) + 1
    {
      searches := searches + 1;
      found := occurs(search);
    }

    method Stop(clear: bool)
      modifies this`mEventTarget, this`mSearchString
      ensures Abs() == StopFind(old(Abs()), clear)
    {
      mEventTarget := false;
      if clear {
        mSearchString := "";
      }
    }

    method Start()
      modifies this
      ensures Abs() == StartFind() && searches == old(searches)
      ensures Inv(occurs, Abs()) && Exact(occurs, Abs())
    {
      if mEventTarget {
        Stop(true);
      }
      mEventTarget := true;
      mBadKeysSinceMatch := 0;
      mSearchString := "";
    }

    /** A find-again command for the current string. */
    method Again() returns (report: Report)
      modifies this
      ensures Abs() == FindAgain(occurs, old(Abs())).state && report == FindAgain(occurs, old(Abs())).report
    {
      Stop(false);
      var found := false;
      if mBadKeysSinceMatch == 0 {
        found := Find(mSearchString);
      }
      report := Verdict(found);
    }

    /** The result is that of the state machine, and a search is made only when the counter
        comes down to zero or is zero. */
    method Process(key: Key) returns (report: Report, rehighlight: seq<string>)
      requires mEventTarget
      modifies this
      ensures var r := ProcessKey(occurs, old(Abs()), key);
              Abs() == r.state && report == r.report && rehighlight == r.rehighlight
      ensures searches <= old(searches) + 1
      ensures searches > old(searches) ==>
        old(mBadKeysSinceMatch) == 0 || (key.BackSpace? && old(mBadKeysSinceMatch) == 1)
    {
      report, rehighlight := Nothing, [];
      if key.Escape? {
        Stop(false);
        return;
      }
      var found := false;
      if key.BackSpace? {
        mSearchString := if mSearchString == "" then "" else mSearchString[..|mSearchString| - 1];
        if mSearchString == "" {
          Stop(true);
          return;
        }
        if mBadKeysSinceMatch != 0 {
          mBadKeysSinceMatch := mBadKeysSinceMatch - 1;
        }
        if mBadKeysSinceMatch == 0 {
          found := Find(mSearchString);
        }
      } else {
        if key.Control? {
          return;
        }
        if mBadKeysSinceMatch >= 3 {
          return;
        }
        var previousString := mSearchString;
        mSearchString := mSearchString + key.typed;
        if mBadKeysSinceMatch == 0 {
          found := Find(mSearchString);
          if previousString != "" && !found {
            rehighlight := [previousString];
          }
        }
        if !found {
          mBadKeysSinceMatch := mBadKeysSinceMatch + 1;
        }
      }
      report := Verdict(found);
    }
  }
}
