/**
  Which events are sent: the clients and their subscriptions of atk-adaptor/bridge.c, and the filter of
  atk-adaptor/event.c that matches an event against them.
 */
module Subscriptions {
  import opened Common
  import opened EventNames
  import opened Traversal

  /** `data` is the subscription split at its colons; `properties` are pointers to property definitions. */
  datatype EventData = EventData(busName: string, data: seq<string>, properties: seq<nat>)

  // ---------------------------------------------------------------- g_strsplit (event, ":", 3)

  function BeforeColon(s: string): string {
    if s == [] || s[0] == ':' then [] else [s[0]] + BeforeColon(s[1..])
  }

  lemma {:induction false} BeforeColonPrefix(s: string)
    ensures BeforeColon(s) <= s && ':' !in BeforeColon(s)
    ensures |BeforeColon(s)| < |s| ==> s[|BeforeColon(s)|] == ':'
    ensures |BeforeColon(s)| < |s| <==> ':' in s
  {
    if s != [] && s[0] != ':' {
      BeforeColonPrefix(s[1..]);
      assert s == [s[0]] + s[1..];
    }
  }

  /** Cuts at no more than `cuts` colons. */
  function Pieces(s: string, cuts: nat): (pieces: seq<string>)
    ensures pieces != []
    decreases cuts
  {
    var head := BeforeColon(s);
    if cuts == 0 || |head| >= |s| then [s] else [head] + Pieces(s[|head| + 1..], cuts - 1)
  }

  /** The empty string has no pieces at all. */
  function SplitEvent(event: string): seq<string> {
    if event == "" then [] else Pieces(event, 2)
  }

  function Join(pieces: seq<string>): string {
    if pieces == [] then []
    else if |pieces| == 1 then pieces[0]
    else pieces[0] + ":" + Join(pieces[1..])
  }

  /** No more pieces than asked for, and only the last may still hold a colon, if there are that many. */
  lemma {:induction false} PiecesCount(s: string, cuts: nat)
    ensures 1 <= |Pieces(s, cuts)| <= cuts + 1
    ensures forall i :: 0 <= i < |Pieces(s, cuts)| - 1 ==> ':' !in Pieces(s, cuts)[i]
    ensures |Pieces(s, cuts)| == cuts + 1 || ':' !in Pieces(s, cuts)[|Pieces(s, cuts)| - 1]
    decreases cuts
  {
    BeforeColonPrefix(s);
    if cuts > 0 && |BeforeColon(s)| < |s| {
      PiecesCount(s[|BeforeColon(s)| + 1..], cuts - 1);
    }
  }

  lemma JoinCons(head: string, rest: seq<string>)
    requires rest != []
    ensures Join([head] + rest) == head + ":" + Join(rest)
  {
    assert ([head] + rest)[1..] == rest;
  }

  lemma CutAtFirst(s: string)
    requires |BeforeColon(s)| < |s|
    ensures s == BeforeColon(s) + ":" + s[|BeforeColon(s)| + 1..]
  {
    BeforeColonPrefix(s);
  }

  /** Splitting loses nothing: the pieces joined by colons give the event back. */
  lemma {:induction false} PiecesJoin(s: string, cuts: nat)
    ensures Join(Pieces(s, cuts)) == s
    decreases cuts
  {
    var head := BeforeColon(s);
    if cuts > 0 && |head| < |s| {
      var rest := s[|head| + 1..];
      PiecesJoin(rest, cuts - 1);
      JoinCons(head, Pieces(rest, cuts - 1));
      CutAtFirst(s);
    }
  }

  /** A subscription is cut at its first two colons, if it has them; the empty one has no pieces. */
  lemma SplitEventExact(event: string)
    ensures event == "" ==> SplitEvent(event) == []
    ensures event != "" ==>
              var pieces := SplitEvent(event);
              && Join(pieces) == event && 1 <= |pieces| <= 3
              && (forall i :: 0 <= i < |pieces| - 1 ==> ':' !in pieces[i])
              && (|pieces| == 3 || ':' !in pieces[|pieces| - 1])
  {
    PiecesJoin(event, 2);
    PiecesCount(event, 2);
  }

  // ---------------------------------------------------------------- matching

  /** The part of a subscription that is compared: everything before its first empty piece. */
  function Pattern(haystack: seq<string>): seq<string> {
    if haystack == [] || haystack[0] == "" then [] else [haystack[0]] + Pattern(haystack[1..])
  }

  /** The event (or subscription) falls under the subscription. */
  predicate Matches(needle: seq<string>, haystack: seq<string>) {
    Pattern(haystack) <= needle
  }

  lemma {:induction false} PatternIsPrefix(h: seq<string>)
    ensures Pattern(h) <= h && "" !in Pattern(h)
    ensures |Pattern(h)| < |h| ==> h[|Pattern(h)|] == ""
  {
    if h != [] && h[0] != "" {
      PatternIsPrefix(h[1..]);
      assert h == [h[0]] + h[1..];
    }
  }

  /** The piece comes before the subscription's first empty piece. */
  predicate IsCompared(haystack: seq<string>, i: int) {
    0 <= i < |haystack| && forall j :: 0 <= j <= i ==> haystack[j] != ""
  }

  /** Each piece of the subscription that is compared is also the event's. */
  lemma MatchesExact(needle: seq<string>, haystack: seq<string>)
    ensures Matches(needle, haystack) <==>
            forall i :: IsCompared(haystack, i) ==> i < |needle| && needle[i] == haystack[i]
  {
    PatternIsPrefix(haystack);
    var p := Pattern(haystack);
    forall i ensures IsCompared(haystack, i) <==> 0 <= i < |p| {
      assert forall j :: 0 <= j < |p| ==> haystack[j] == p[j];
    }
    if forall i :: IsCompared(haystack, i) ==> i < |needle| && needle[i] == haystack[i] {
      assert |p| > 0 ==> IsCompared(haystack, |p| - 1);
      assert needle[..|p|] == p;
    }
  }

  /** spi_event_is_subtype */
  method SpiEventIsSubtype(needle: seq<string>, haystack: seq<string>) returns (r: bool)
    ensures r <==> Matches(needle, haystack)
    ensures r <==> forall i :: IsCompared(haystack, i) ==> i < |needle| && needle[i] == haystack[i]
  {
    MatchesExact(needle, haystack);
    PatternIsPrefix(haystack);
    var i := 0;
    while i < |haystack| && haystack[i] != ""
      invariant 0 <= i <= |Pattern(haystack)| && i <= |needle|
      invariant Pattern(haystack)[..i] == needle[..i]
    {
      assert i < |Pattern(haystack)|;
      if i >= |needle| || needle[i] != haystack[i] {
        return false;
      }
      assert Pattern(haystack)[..i + 1] == Pattern(haystack)[..i] + [haystack[i]];
      assert needle[..i + 1] == needle[..i] + [needle[i]];
      i := i + 1;
    }
    assert Pattern(haystack)[..i] == Pattern(haystack);
    return true;
  }

  /** Matching is a preorder, and two subscriptions that match each other compare alike. */
  lemma MatchingIsPreorder(a: seq<string>, b: seq<string>, c: seq<string>)
    ensures Matches(a, a)
    ensures Matches(a, b) && Matches(b, c) ==> Matches(a, c)
    ensures Matches(a, b) && Matches(b, a) ==> Pattern(a) == Pattern(b)
  {
    PatternIsPrefix(a);
    PatternIsPrefix(b);
    PatternIsPrefix(c);
    if Matches(b, c) {
      PatternLongest(b, Pattern(c));
    }
    if Matches(a, b) && Matches(b, a) {
      PatternLongest(a, Pattern(b));
      PatternLongest(b, Pattern(a));
    }
  }

  /** Every prefix without empty pieces is a prefix of the compared part. */
  lemma PatternLongest(h: seq<string>, p: seq<string>)
    requires p <= h && "" !in p
    ensures p <= Pattern(h)
  {
    PatternIsPrefix(h);
  }

  // ---------------------------------------------------------------- the subscription list

  predicate Removes(busName: string, pattern: seq<string>, e: EventData) {
    e.busName == busName && Matches(e.data, pattern)
  }

  /** The subscriptions that remain, in order. */
  function Remaining(events: seq<EventData>, busName: string, pattern: seq<string>): seq<EventData> {
    if events == [] then []
    else (if Removes(busName, pattern, events[0]) then [] else [events[0]])
         + Remaining(events[1..], busName, pattern)
  }

  /** The others stay as often as they were there. */
  lemma {:induction false} RemainingCount(events: seq<EventData>, busName: string, pattern: seq<string>, e: EventData)
    ensures multiset(Remaining(events, busName, pattern))[e] ==
            if e.busName == busName && Matches(e.data, pattern) then 0 else multiset(events)[e]
  {
    if events != [] {
      RemainingCount(events[1..], busName, pattern, e);
      assert events == [events[0]] + events[1..];
    }
  }

  /** Exactly the sender's subscriptions below the pattern go. */
  lemma {:induction false} RemainingExact(events: seq<EventData>, busName: string, pattern: seq<string>)
    ensures forall e :: e in Remaining(events, busName, pattern) <==> e in events && !Removes(busName, pattern, e)
  {
    if events != [] {
      RemainingExact(events[1..], busName, pattern);
      assert events == [events[0]] + events[1..];
    }
  }

  lemma {:induction false} RemainingConcat(a: seq<EventData>, b: seq<EventData>, busName: string, pattern: seq<string>)
    ensures Remaining(a + b, busName, pattern) == Remaining(a, busName, pattern) + Remaining(b, busName, pattern)
  {
    if a == [] {
      assert a + b == b;
    } else {
      assert (a + b)[1..] == a[1..] + b;
      RemainingConcat(a[1..], b, busName, pattern);
    }
  }

  datatype Op = Add(event: EventData) | Remove(busName: string, pattern: seq<string>)

  function Apply(events: seq<EventData>, op: Op): seq<EventData> {
    match op
    case Add(e) => events + [e]
    case Remove(busName, pattern) => Remaining(events, busName, pattern)
  }

  function ApplyAll(events: seq<EventData>, ops: seq<Op>): seq<EventData> {
    if ops == [] then events else Apply(ApplyAll(events, ops[..|ops| - 1]), ops[|ops| - 1])
  }

  /** The scan of signal_is_needed succeeds. */
  ghost predicate SomeListener(events: seq<EventData>, event: seq<string>) {
    exists i :: 0 <= i < |events| && Matches(event, events[i].data)
  }

  /** The subscription was added by the i-th operation and by none of the later ones removed. */
  ghost predicate SurvivesFrom(ops: seq<Op>, i: nat, e: EventData) {
    && i < |ops| && ops[i] == Add(e)
    && forall j :: i < j < |ops| && ops[j].Remove? ==> !Removes(ops[j].busName, ops[j].pattern, e)
  }

  /** Over whole runs: a subscription stands exactly when it was added and not removed since. */
  lemma {:induction false} StandsIffSurvives(ops: seq<Op>, e: EventData)
    ensures e in ApplyAll([], ops) <==> exists i :: SurvivesFrom(ops, i, e)
  {
    if ops != [] {
      var before, last := ops[..|ops| - 1], ops[|ops| - 1];
      StandsIffSurvives(before, e);
      if last.Remove? {
        RemainingExact(ApplyAll([], before), last.busName, last.pattern);
      }
      if e in ApplyAll([], ops) {
        if last == Add(e) {
          assert SurvivesFrom(ops, |before|, e);
        } else {
          var i :| SurvivesFrom(before, i, e);
          assert SurvivesFrom(ops, i, e);
        }
      }
      forall i: nat | SurvivesFrom(ops, i, e) ensures e in ApplyAll([], ops) {
        if i < |before| {
          assert SurvivesFrom(before, i, e);
        }
      }
    }
  }

  /** So the scan finds a listener exactly when some added and since not removed subscription matches. */
  lemma ListenerIffSurvivor(ops: seq<Op>, event: seq<string>)
    ensures SomeListener(ApplyAll([], ops), event) <==>
            exists i, e :: SurvivesFrom(ops, i, e) && Matches(event, e.data)
  {
    var events := ApplyAll([], ops);
    if SomeListener(events, event) {
      var k :| 0 <= k < |events| && Matches(event, events[k].data);
      StandsIffSurvives(ops, events[k]);
      var i :| SurvivesFrom(ops, i, events[k]);
    }
    forall i: nat, e | SurvivesFrom(ops, i, e) && Matches(event, e.data) ensures SomeListener(events, event) {
      StandsIffSurvives(ops, e);
      var k :| 0 <= k < |events| && events[k] == e;
      assert Matches(event, events[k].data);
    }
  }

  // ---------------------------------------------------------------- requested properties

  /** Those of `more` that are not in `props`, in the order in which they first occur. */
  function NewOnes(props: seq<nat>, more: seq<nat>): seq<nat> {
    if more == [] then []
    else
      var last, sofar := more[|more| - 1], NewOnes(props, more[..|more| - 1]);
      if last in props || last in sofar then sofar else sofar + [last]
  }

  /** Nothing occurs twice, and everything asked for is there. */
  lemma {:induction false} NewOnesExact(props: seq<nat>, more: seq<nat>)
    requires Distinct(props)
    ensures Distinct(props + NewOnes(props, more))
    ensures forall p :: p in NewOnes(props, more) <==> p in more && p !in props
  {
    if more != [] {
      assert more == more[..|more| - 1] + [more[|more| - 1]];
      var sofar := NewOnes(props, more[..|more| - 1]);
      NewOnesExact(props, more[..|more| - 1]);
      assert props + (sofar + [more[|more| - 1]]) == (props + sofar) + [more[|more| - 1]];
    }
  }

  /** The order is that of first occurrence: what a part of the list adds comes before what the rest does. */
  lemma {:induction false} NewOnesConcat(props: seq<nat>, a: seq<nat>, b: seq<nat>)
    ensures NewOnes(props, a + b) == NewOnes(props, a) + NewOnes(props + NewOnes(props, a), b)
  {
    if b == [] {
      assert a + b == a;
    } else {
      var front, last := b[..|b| - 1], b[|b| - 1];
      NewOnesConcat(props, a, front);
      assert (a + b)[..|a + b| - 1] == a + front && (a + b)[|a + b| - 1] == last;
    }
  }

  /** What the matching subscriptions ask for, in the order of the list. */
  function Wanted(events: seq<EventData>, event: seq<string>): seq<nat> {
    if events == [] then []
    else
      var last := events[|events| - 1];
      Wanted(events[..|events| - 1], event) + if Matches(event, last.data) then last.properties else []
  }

  // ---------------------------------------------------------------- the filter

  /** The event as listeners see it: class, major and minor, the minor cut at its first colon. */
  function Formatted(klass: string, major: string, minor: string): seq<string>
    requires klass == "" || |klass| >= 21
  {
    [ProperFormat(if klass == "" then klass else klass[21..]), ProperFormat(major), BeforeColon(ProperFormat(minor))]
  }

  /** Events that keep remote caches up to date. */
  predicate UpdatesCache(major: string, minor: string) {
    var m, n := ProperFormat(major), ProperFormat(minor);
    || m == "ChildrenChanged"
    || (m == "PropertyChange"
        && (n == "AccessibleName" || n == "AccessibleDescription" || n == "AccessibleParent" || n == "AccessibleRole"))
    || m == "StateChanged"
  }

  /** Whether the object's states let a cache update through; no state set holds no state. */
  predicate StatesAllow(states: Option<States>, major: string, minor: string) {
    minor == "defunct" || states.None?
    || if ProperFormat(major) == "ChildrenChanged" then !states.value.managesDescendants else !states.value.transient
  }

  lemma ChildrenName(s: string)
    requires s == "children-changed"
    ensures ProperFormat(s) == "ChildrenChanged"
  {
    TwoWordsJoined(s, "children", "changed", "ChildrenChanged");
  }

  lemma StateName(s: string)
    requires s == "state-changed"
    ensures ProperFormat(s) == "StateChanged"
  {
    TwoWordsJoined(s, "state", "changed", "StateChanged");
  }

  lemma PropertyName(s: string)
    requires s == "property-change"
    ensures ProperFormat(s) == "PropertyChange"
  {
    TwoWordsJoined(s, "property", "change", "PropertyChange");
  }

  lemma TextName(s: string)
    requires s == "text-changed"
    ensures ProperFormat(s) == "TextChanged"
  {
    TwoWordsJoined(s, "text", "changed", "TextChanged");
  }

  lemma AccessibleName(s: string, b: string)
    requires IsWord(b) && s == "accessible-" + b
    ensures ProperFormat(s) == "Accessible" + RaiseHead(b)
  {
    var a := "accessible";
    AccessibleIsWord(a);
    TwoWordsJoined(s, a, b, "Accessible" + RaiseHead(b));
  }

  lemma AccessibleIsWord(a: string)
    requires a == "accessible"
    ensures IsWord(a) && RaiseHead(a) == "Accessible" && a + "-" == "accessible-"
  {
  }

  /** The event is let through although no subscription asks for it. */
  predicate SentUnasked(states: Option<States>, major: string, minor: string) {
    UpdatesCache(major, minor) && StatesAllow(states, major, minor)
  }

  /**
    What nobody asked for and is sent all the same, by the names the toolkit uses: children unless the object
    manages its descendants, states and four properties unless it is transient, and going defunct always.
   */
  lemma SentByAtkName(states: Option<States>, major: string, minor: string)
    ensures major == "children-changed" ==>
              (SentUnasked(states, major, minor) <==>
               minor == "defunct" || states.None? || !states.value.managesDescendants)
    ensures major == "state-changed" ==>
              (SentUnasked(states, major, minor) <==> minor == "defunct" || states.None? || !states.value.transient)
    ensures major == "text-changed" ==> !SentUnasked(states, major, minor)
  {
    if major == "children-changed" {
      ChildrenName(major);
    } else if major == "state-changed" {
      StateName(major);
    } else if major == "text-changed" {
      TextName(major);
    }
  }

  lemma PropertySentByAtkName(states: Option<States>, major: string, minor: string, property: string)
    requires major == "property-change" && minor == "accessible-" + property && IsWord(property)
    requires 'a' <= property[0] <= 'z'
    ensures SentUnasked(states, major, minor) <==>
            && property in {"name", "description", "parent", "role"}
            && (states.None? || !states.value.transient)
  {
    PropertyName(major);
    AccessibleName(minor, property);
    assert minor[0] == 'a' && "defunct"[0] == 'd';
    RaisedProperty(property);
    SentUnaskedIff(states, major, minor);
  }

  lemma RaisedProperty(property: string)
    requires IsWord(property) && 'a' <= property[0] <= 'z'
    ensures "Accessible" + RaiseHead(property) in CACHED_PROPERTIES <==>
            property in {"name", "description", "parent", "role"}
  {
    IsCachedProperty("Accessible", RaiseHead(property));
    IsRaised(property, "name", "Name");
    IsRaised(property, "description", "Description");
    IsRaised(property, "parent", "Parent");
    IsRaised(property, "role", "Role");
  }

  lemma IsCachedProperty(prefix: string, name: string)
    requires prefix == "Accessible"
    ensures prefix + name in CACHED_PROPERTIES <==> name in {"Name", "Description", "Parent", "Role"}
  {
    IsPrefixed(prefix, name, "Name", "AccessibleName");
    IsPrefixed(prefix, name, "Description", "AccessibleDescription");
    IsPrefixed(prefix, name, "Parent", "AccessibleParent");
    IsPrefixed(prefix, name, "Role", "AccessibleRole");
  }

  lemma IsPrefixed(prefix: string, name: string, other: string, whole: string)
    requires prefix + other == whole
    ensures prefix + name == whole <==> name == other
  {
    SamePrefix(prefix, name, other);
  }

  lemma IsRaised(property: string, lower: string, raised: string)
    requires property != [] && lower != [] && 'a' <= property[0] <= 'z' && 'a' <= lower[0] <= 'z'
    requires raised == RaiseHead(lower)
    ensures RaiseHead(property) == raised <==> property == lower
  {
    SameRaised(property, lower);
  }

  lemma SamePrefix(p: string, a: string, b: string)
    ensures p + a == p + b <==> a == b
  {
    assert (p + a)[|p|..] == a && (p + b)[|p|..] == b;
  }

  lemma SameRaised(a: string, b: string)
    requires a != [] && b != [] && 'a' <= a[0] <= 'z' && 'a' <= b[0] <= 'z'
    ensures RaiseHead(a) == RaiseHead(b) <==> a == b
  {
    SameHead(a[1..], b[1..]);
    assert a == [a[0]] + a[1..] && b == [b[0]] + b[1..];
  }

  const CACHED_PROPERTIES := {"AccessibleName", "AccessibleDescription", "AccessibleParent", "AccessibleRole"}

  /** The same for every name, by what it converts to. */
  lemma SentUnaskedIff(states: Option<States>, major: string, minor: string)
    ensures ProperFormat(major) == "ChildrenChanged" ==>
              (SentUnasked(states, major, minor) <==>
               minor == "defunct" || states.None? || !states.value.managesDescendants)
    ensures ProperFormat(major) == "StateChanged" ==>
              (SentUnasked(states, major, minor) <==> minor == "defunct" || states.None? || !states.value.transient)
    ensures ProperFormat(major) == "PropertyChange" ==>
              (SentUnasked(states, major, minor) <==>
               && ProperFormat(minor) in CACHED_PROPERTIES
               && (minor == "defunct" || states.None? || !states.value.transient))
    ensures ProperFormat(major) !in {"ChildrenChanged", "StateChanged", "PropertyChange"} ==>
              !SentUnasked(states, major, minor)
  {
  }

  /**
    An event in the toolkit's form, as listeners see it: the interface name without its first 21 characters,
    the major and the minor name with their words joined, the minor without what follows its colon.
   */
  lemma FormattedExact(name: string, major: seq<string>, minor: seq<string>, rest: string)
    requires IsWord(name) && minor != []
    requires (forall w :: w in major ==> IsWord(w)) && forall w :: w in minor ==> IsWord(w)
    ensures Formatted("org.a11y.atspi.Event." + name, Dashed(major), Dashed(minor)) ==
            [RaiseHead(name), Raised(major), Raised(minor)]
    ensures Formatted("org.a11y.atspi.Event." + name, Dashed(major), Dashed(minor) + (":" + rest)) ==
            [RaiseHead(name), Raised(major), Raised(minor)]
  {
    var klass := "org.a11y.atspi.Event." + name;
    assert klass[21..] == name;
    RaisedPrefix(name, "");
    assert name + "" == name && RaiseHead(name) + "" == RaiseHead(name);
    WordsJoined(major);
    WordsJoined(minor);
    WordsBefore(minor, ":" + rest);
    ColonStays(rest);
    RaisedHasNoColon(minor);
    CutBeforeColon(Raised(minor), "");
    CutBeforeColon(Raised(minor), ":" + Format(rest, true));
    assert Raised(minor) + "" == Raised(minor);
  }

  lemma {:induction false} CutBeforeColon(s: string, rest: string)
    requires ':' !in s && (rest == "" || rest[0] == ':')
    ensures BeforeColon(s + rest) == s
  {
    if s == [] {
      assert s + rest == rest;
    } else {
      assert (s + rest)[0] == s[0] && (s + rest)[1..] == s[1..] + rest;
      CutBeforeColon(s[1..], rest);
    }
  }

  /** Going defunct is announced whatever the object's states and whoever listens. */
  lemma DefunctAlwaysSent(states: Option<States>)
    ensures UpdatesCache("state-changed", "defunct") && StatesAllow(states, "state-changed", "defunct")
  {
    StateName("state-changed");
  }

  /** A property that some matching subscription asks for. */
  ghost predicate Requested(events: seq<EventData>, event: seq<string>, p: nat) {
    exists i :: 0 <= i < |events| && Matches(event, events[i].data) && p in events[i].properties
  }

  /**
    The filter and the emitted signal talk about the same event: a listener that named the signal is
    given a signal of that name exactly when the two converters agree on it.
   */
  lemma ListenerGetsItsSignal(klass: string, major: string, minor: string, subscription: seq<string>)
    requires klass == "" || |klass| >= 21
    requires Matches(Formatted(klass, major, minor), subscription) && |Pattern(subscription)| >= 2
    ensures SignalName(major) == Pattern(subscription)[1] <==> NamesAgree(major)
  {
    assert Pattern(subscription)[1] == Formatted(klass, major, minor)[1];
    NamesAgreeIff(major);
  }

  // ---------------------------------------------------------------- the object

  class Bridge {
    var clients: seq<string>
    var events: seq<EventData>
    var eventsInitialized: bool
    /** The ATK listeners are registered: spi_atk_activate ran, and no deregistration since. */
    var listening: bool

    /** Clients are distinct, and the application listens exactly while there is one. */
    ghost predicate Valid()
      reads this
    {
      Distinct(clients) && (listening <==> clients != [])
    }

    constructor ()
      ensures Valid() && clients == [] && events == [] && !eventsInitialized
    {
      clients, events, eventsInitialized, listening := [], [], false, false;
    }

    method AddClient(busName: string)
      requires Valid()
      modifies this`clients, this`listening
      ensures Valid() && clients == if busName in old(clients) then old(clients) else old(clients) + [busName]
    {
      var i := 0;
      while i < |clients|
        invariant 0 <= i <= |clients| && busName !in clients[..i]
      {
        if clients[i] == busName { return; }
        i := i + 1;
      }
      if clients == [] {
        listening := true;
      }
      clients := clients + [busName];
    }

    method RemoveClient(busName: string)
      requires Valid()
      modifies this`clients, this`listening
      ensures Valid() && clients == RemoveFirst(old(clients), busName)
      ensures busName !in clients
    {
      RemoveFirstDistinct(clients, busName);
      var i := 0;
      while i < |clients|
        invariant 0 <= i <= |clients|
        invariant clients == old(clients) && listening == old(listening)
        invariant busName !in clients[..i]
      {
        if clients[i] == busName {
          RemoveFirstDrops(clients, i);
          DropClient(i);
          return;
        }
        i := i + 1;
      }
    }

    /** The client at `i` goes, and with the last one the listeners. */
    method DropClient(i: nat)
      requires i < |clients|
      modifies this`clients, this`listening
      ensures clients == old(clients)[..i] + old(clients)[i + 1..]
      ensures listening <==> old(listening) && clients != []
    {
      clients := clients[..i] + clients[i + 1..];
      if clients == [] {
        listening := false;
      }
    }

    method AddEvent(busName: string, event: string, properties: seq<nat>)
      requires Valid()
      modifies this`clients, this`listening, this`events
      ensures Valid() && busName in clients
      ensures events == Apply(old(events), Add(EventData(busName, SplitEvent(event), properties)))
      ensures events == old(events) + [EventData(busName, SplitEvent(event), properties)]
    {
      AddClient(busName);
      events := events + [EventData(busName, SplitEvent(event), properties)];
    }

    /** remove_events: the list is edited in place as it is walked. */
    method RemoveEvents(busName: string, event: string)
      modifies this`events
      ensures events == Apply(old(events), Remove(busName, SplitEvent(event)))
    {
      var pattern := SplitEvent(event);
      var i := 0;
      while i < |events|
        invariant 0 <= i <= |events|
        invariant events[..i] + Remaining(events[i..], busName, pattern) == Remaining(old(events), busName, pattern)
        decreases |events| - i
      {
        RemainingStep(events, busName, pattern, i);
        var below := SpiEventIsSubtype(events[i].data, pattern);
        if events[i].busName == busName && below {
          DeleteAt(events, i);
          events := events[..i] + events[i + 1..];
        } else {
          i := i + 1;
        }
      }
      assert events[..i] == events && events[i..] == [];
    }

    /** append_properties: adds what is not there yet. */
    method AppendProperties(props: seq<nat>, more: seq<nat>) returns (all: seq<nat>)
      requires Distinct(props)
      ensures all == props + NewOnes(props, more)
      ensures Distinct(all)
      ensures forall p :: p in all <==> p in props || p in more
    {
      NewOnesExact(props, more);
      all := props;
      for i := 0 to |more|
        invariant all == props + NewOnes(props, more[..i])
      {
        assert more[..i + 1][..i] == more[..i];
        NewOnesExact(props, more[..i]);
        if more[i] !in all {
          all := all + [more[i]];
        }
      }
      assert more[..|more|] == more;
    }

    /**
      signal_is_needed: before the subscriptions are known every event is sent; afterwards one that must
      update caches, unless the object's states forbid it, and one for which some standing subscription
      matches. The properties returned are those the matching subscriptions ask for, each once.
     */
    method SignalIsNeeded(states: Option<States>, klass: string, major: string, minor: string)
      returns (needed: bool, properties: Option<seq<nat>>)
      requires klass == "" || |klass| >= 21
      ensures needed <==>
              || !eventsInitialized
              || SentUnasked(states, major, minor)
              || SomeListener(events, Formatted(klass, major, minor))
      ensures properties.Some? <==> eventsInitialized && SomeListener(events, Formatted(klass, major, minor))
      ensures properties.Some? ==>
                && Distinct(properties.value)
                && properties == Collected(events, Formatted(klass, major, minor))
                && forall p :: p in properties.value <==> Requested(events, Formatted(klass, major, minor), p)
    {
      properties := None;
      if !eventsInitialized { return true, None; }
      var k := EnsureProperFormat(if klass == "" then klass else klass[21..]);
      var m := EnsureProperFormat(major);
      var n := EnsureProperFormat(minor);
      needed := false;
      if m == "ChildrenChanged"
         || (m == "PropertyChange"
             && (n == "AccessibleName" || n == "AccessibleDescription"
                 || n == "AccessibleParent" || n == "AccessibleRole"))
         || m == "StateChanged"
      {
        if minor == "defunct" {
          needed := true;
        } else if m == "ChildrenChanged" {
          needed := states.None? || !states.value.managesDescendants;
        } else {
          needed := states.None? || !states.value.transient;
        }
      }
      var data := [k, m, BeforeColon(n)];
      properties := MatchListeners(data);
      needed := needed || properties.Some?;
    }

    /** The scan of the subscription list. */
    method MatchListeners(data: seq<string>) returns (props: Option<seq<nat>>)
      ensures props == Collected(events, data)
      ensures props.Some? <==> SomeListener(events, data)
      ensures props.Some? ==> Distinct(props.value) && forall p :: p in props.value <==> Requested(events, data, p)
    {
      props := None;
      for i := 0 to |events|
        invariant props == Collected(events[..i], data)
      {
        CollectedSnoc(events, i, data);
        var matches := SpiEventIsSubtype(data, events[i].data);
        if matches {
          var sofar := if props.Some? then props.value else [];
          var all := AppendProperties(sofar, events[i].properties);
          props := Some(all);
        }
      }
      assert events[..|events|] == events;
      if props.Some? {
        CollectedExact(events, data);
      }
    }
  }

  /** What the scan returns. */
  ghost function Collected(events: seq<EventData>, data: seq<string>): Option<seq<nat>> {
    if SomeListener(events, data) then Some(NewOnes([], Wanted(events, data))) else None
  }

  lemma {:induction false} WantedExact(events: seq<EventData>, data: seq<string>)
    ensures forall p :: p in Wanted(events, data) <==> Requested(events, data, p)
  {
    if events != [] {
      var front, last := events[..|events| - 1], events[|events| - 1];
      WantedExact(front, data);
      SnocListener(front, last, data);
      assert events == front + [last];
    }
  }

  lemma {:induction false} NothingWanted(events: seq<EventData>, data: seq<string>)
    requires !SomeListener(events, data)
    ensures Wanted(events, data) == []
  {
    if events != [] {
      var front, last := events[..|events| - 1], events[|events| - 1];
      SnocListener(front, last, data);
      assert events == front + [last];
      NothingWanted(front, data);
    }
  }

  lemma CollectedExact(events: seq<EventData>, data: seq<string>)
    requires SomeListener(events, data)
    ensures var props := NewOnes([], Wanted(events, data));
            Distinct(props) && forall p :: p in props <==> Requested(events, data, p)
  {
    NewOnesExact([], Wanted(events, data));
    assert [] + NewOnes([], Wanted(events, data)) == NewOnes([], Wanted(events, data));
    WantedExact(events, data);
  }

  /** One more subscription is scanned. */
  lemma CollectedSnoc(events: seq<EventData>, i: nat, data: seq<string>)
    requires i < |events|
    ensures var before := Collected(events[..i], data);
            var sofar := if before.Some? then before.value else [];
            && Distinct(sofar)
            && Collected(events[..i + 1], data) ==
               if Matches(data, events[i].data) then Some(sofar + NewOnes(sofar, events[i].properties)) else before
  {
    SnocListener(events[..i], events[i], data);
    assert events[..i + 1] == events[..i] + [events[i]];
    WantedSnoc(events, i, data);
    NewOnesExact([], Wanted(events[..i], data));
    assert [] + NewOnes([], Wanted(events[..i], data)) == NewOnes([], Wanted(events[..i], data));
    if !SomeListener(events[..i], data) {
      NothingWanted(events[..i], data);
    }
  }

  lemma WantedSnoc(events: seq<EventData>, i: nat, data: seq<string>)
    requires i < |events|
    ensures var sofar := NewOnes([], Wanted(events[..i], data));
            NewOnes([], Wanted(events[..i + 1], data)) ==
            if Matches(data, events[i].data) then sofar + NewOnes(sofar, events[i].properties) else sofar
  {
    assert events[..i + 1][..i] == events[..i];
    var wanted := Wanted(events[..i], data);
    NewOnesConcat([], wanted, events[i].properties);
    assert [] + NewOnes([], wanted) == NewOnes([], wanted);
    assert wanted + [] == wanted;
  }

  lemma SnocListener(events: seq<EventData>, e: EventData, data: seq<string>)
    ensures SomeListener(events + [e], data) <==> SomeListener(events, data) || Matches(data, e.data)
    ensures forall p :: Requested(events + [e], data, p) <==>
              Requested(events, data, p) || (Matches(data, e.data) && p in e.properties)
    ensures forall p :: Requested(events, data, p) ==> SomeListener(events, data)
  {
    var all := events + [e];
    assert all[|events|] == e;
    assert forall i :: 0 <= i < |events| ==> all[i] == events[i];
  }

  lemma SplitAt<T>(s: seq<T>, i: nat)
    requires i < |s|
    ensures s[i..][0] == s[i] && s[i..][1..] == s[i + 1..]
    ensures forall rest :: s[..i] + ([s[i]] + rest) == s[..i + 1] + rest
  {
    forall rest ensures s[..i] + ([s[i]] + rest) == s[..i + 1] + rest {
      assert s[..i + 1] == s[..i] + [s[i]];
    }
  }

  lemma RemainingStep(s: seq<EventData>, busName: string, pattern: seq<string>, i: nat)
    requires i < |s|
    ensures s[..i] + Remaining(s[i..], busName, pattern) ==
            (if Removes(busName, pattern, s[i]) then s[..i] else s[..i + 1]) + Remaining(s[i + 1..], busName, pattern)
  {
    SplitAt(s, i);
    assert [] + Remaining(s[i + 1..], busName, pattern) == Remaining(s[i + 1..], busName, pattern);
  }

  lemma DeleteAt(s: seq<EventData>, i: nat)
    requires i < |s|
    ensures var t := s[..i] + s[i + 1..]; t[..i] == s[..i] && t[i..] == s[i + 1..] && |t| == |s| - 1
  {
  }
}
