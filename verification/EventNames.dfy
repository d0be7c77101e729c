/**
  The two converters of atk-adaptor/event.c from ATK signal names such as "active-descendant-changed" to
  D-Bus ones such as "ActiveDescendantChanged". One names the emitted signal, the other the event that
  listeners are matched against.
 */
module EventNames {

  /** `toupper` in the C locale. */
  function Upper(c: char): char {
    if 'a' <= c <= 'z' then (c as int - 32) as char else c
  }

  const LOWER_CASE := "abcdefghijklmnopqrstuvwxyz"
  const UPPER_CASE := "ABCDEFGHIJKLMNOPQRSTUVWXYZ"

  lemma UpperExact(c: char)
    ensures forall i :: 0 <= i < 26 ==> Upper(LOWER_CASE[i]) == UPPER_CASE[i]
    ensures c !in LOWER_CASE ==> Upper(c) == c
  {
    if 'a' <= c <= 'z' {
      assert LOWER_CASE[c as int - 'a' as int] == c;
    }
  }

  /** Indices into a string of length `n`, in increasing order, none below `from`. */
  ghost predicate IsIndexList(pos: seq<nat>, from: nat, n: nat) {
    && (forall k :: 0 <= k < |pos| ==> from <= pos[k] < n)
    && (forall j, k :: 0 <= j < k < |pos| ==> pos[j] < pos[k])
  }

  // ---------------------------------------------------------------- signal_name_to_dbus

  /** All dashes removed, and a character that followed one, or begins the name when `up`, in upper case. */
  function Compact(s: string, up: bool): string {
    if s == [] then []
    else if s[0] == '-' then Compact(s[1..], true)
    else [if up then Upper(s[0]) else s[0]] + Compact(s[1..], false)
  }

  function SignalName(s: string): string {
    Compact(s, true)
  }

  /** The character at `i` as it stands in the signal name: raised at the beginning of a word. */
  function InSignalName(s: string, i: nat): char
    requires i < |s|
  {
    if i == 0 || s[i - 1] == '-' then Upper(s[i]) else s[i]
  }

  /** `name` holds what stands at the indices `pos`: every character but the dashes. */
  ghost predicate IsSignalName(s: string, from: nat, name: string, pos: seq<nat>) {
    && IsIndexList(pos, from, |s|) && |name| == |pos|
    && (forall i :: from <= i < |s| ==> (i in pos <==> s[i] != '-'))
    && (forall k :: 0 <= k < |pos| ==> name[k] == InSignalName(s, pos[k]))
  }

  /** Character by character, for every name. */
  lemma {:induction false} SignalNameExact(s: string, from: nat) returns (pos: seq<nat>)
    requires from <= |s|
    ensures IsSignalName(s, from, Compact(s[from..], from == 0 || s[from - 1] == '-'), pos)
    decreases |s| - from
  {
    if from == |s| {
      pos := [];
    } else {
      assert s[from..][0] == s[from] && s[from..][1..] == s[from + 1..];
      pos := SignalNameExact(s, from + 1);
      if s[from] != '-' {
        SignalNameCons(s, from, Compact(s[from + 1..], false), pos);
        pos := [from] + pos;
      }
    }
  }

  lemma SignalNameCons(s: string, from: nat, name: string, pos: seq<nat>)
    requires from < |s| && s[from] != '-' && IsSignalName(s, from + 1, name, pos)
    ensures IsSignalName(s, from, [InSignalName(s, from)] + name, [from] + pos)
  {
    IndexCons(pos, from, |s|);
    var all, name' := [from] + pos, [InSignalName(s, from)] + name;
    forall k | 0 <= k < |all| ensures name'[k] == InSignalName(s, all[k]) {
      if k > 0 {
        assert all[k] == pos[k - 1] && name'[k] == name[k - 1];
      }
    }
  }

  lemma IndexCons(pos: seq<nat>, from: nat, n: nat)
    requires IsIndexList(pos, from + 1, n) && from < n
    ensures IsIndexList([from] + pos, from, n)
    ensures forall i :: i in [from] + pos <==> i == from || i in pos
  {
  }

  lemma SignalNameMeaning(s: string)
    ensures exists pos :: IsSignalName(s, 0, SignalName(s), pos)
  {
    var pos := SignalNameExact(s, 0);
    assert s[0..] == s;
    assert IsSignalName(s, 0, SignalName(s), pos);
  }

  /** The string with its first character, if any, in upper case. */
  function RaiseHead(s: string): string {
    if s == [] then [] else [Upper(s[0])] + s[1..]
  }

  lemma {:induction false} CompactNoDash(s: string, up: bool)
    ensures '-' !in Compact(s, up)
  {
    if s != [] {
      CompactNoDash(s[1..], true);
      CompactNoDash(s[1..], false);
    }
  }

  lemma {:induction false} CompactDashless(s: string)
    requires '-' !in s
    ensures Compact(s, false) == s
  {
    if s != [] {
      CompactDashless(s[1..]);
    }
  }

  /** Raising the first character by hand and compacting the rest comes to the same. */
  lemma RaiseFirst(s: string)
    ensures Compact(s, true) == Compact(RaiseHead(s), false)
  {
    if s != [] {
      assert RaiseHead(s)[1..] == s[1..];
    }
  }

  /** Removing the first dash and raising what follows it does not change what the name compacts to. */
  lemma {:induction false} RemoveFirstDash(a: string, b: string)
    requires '-' !in a
    ensures Compact(a + ['-'] + b, false) == Compact(a + RaiseHead(b), false)
  {
    if a == [] {
      assert a + ['-'] + b == ['-'] + b && a + RaiseHead(b) == RaiseHead(b);
      assert (['-'] + b)[1..] == b;
      RaiseFirst(b);
    } else {
      assert (a + ['-'] + b)[1..] == a[1..] + ['-'] + b;
      assert (a + RaiseHead(b))[1..] == a[1..] + RaiseHead(b);
      RemoveFirstDash(a[1..], b);
    }
  }

  /** A C string held in an array: the characters before the terminator at `n`. */
  ghost predicate HoldsString(buf: array<char>, n: nat, s: string)
    reads buf
  {
    n < buf.Length && buf[n] == '\0' && buf[..n] == s
  }

  /** strchr: the first dash, if any. */
  method FindDash(buf: array<char>, n: nat) returns (t: nat)
    requires n < buf.Length
    ensures t <= n && '-' !in buf[..t]
    ensures t < n ==> buf[t] == '-'
  {
    t := 0;
    while t < n && buf[t] != '-'
      invariant t <= n && '-' !in buf[..t]
    {
      t := t + 1;
    }
  }

  function RemoveAt(s: string, t: nat): string
    requires t < |s|
  {
    s[..t] + s[t + 1..]
  }

  function RaiseFrom(s: string, t: nat): string
    requires t <= |s|
  {
    s[..t] + RaiseHead(s[t..])
  }

  lemma RaiseFromAt(s: string, t: nat)
    requires t <= |s|
    ensures |RaiseFrom(s, t)| == |s|
    ensures forall k :: 0 <= k < |s| ==> RaiseFrom(s, t)[k] == if k == t then Upper(s[k]) else s[k]
  {
  }

  /** memmove(t, t + 1, strlen(t)): everything after the dash, terminator included, moves down by one. */
  method CloseGap(buf: array<char>, t: nat, n: nat)
    requires t < n < buf.Length && buf[n] == '\0'
    modifies buf
    ensures buf[n - 1] == '\0'
    ensures buf[..n - 1] == RemoveAt(old(buf[..n]), t)
  {
    forall k | t <= k < n {
      buf[k] := buf[k + 1];
    }
  }

  /** *t = toupper (*t), which leaves a terminator alone. */
  method RaiseAt(buf: array<char>, t: nat, n: nat)
    requires t <= n < buf.Length && buf[n] == '\0'
    modifies buf
    ensures buf[n] == '\0'
    ensures buf[..n] == RaiseFrom(old(buf[..n]), t)
  {
    RaiseFromAt(buf[..n], t);
    buf[t] := Upper(buf[t]);
  }

  /** One round of the loop: removes the first dash and raises what follows it. */
  method RemoveDash(buf: array<char>, t: nat, n: nat)
    requires t < n < buf.Length && buf[n] == '\0'
    modifies buf
    ensures buf[n - 1] == '\0'
    ensures buf[..n - 1] == RaiseFrom(RemoveAt(old(buf[..n]), t), t)
  {
    CloseGap(buf, t, n);
    RaiseAt(buf, t, n - 1);
  }

  /** Such a round does not change what the name compacts to. */
  lemma DashRemoved(s: string, t: nat)
    requires t < |s| && s[t] == '-' && '-' !in s[..t]
    ensures Compact(RaiseFrom(RemoveAt(s, t), t), false) == Compact(s, false)
  {
    AtPosition(s, t);
    RemoveFirstDash(s[..t], s[t + 1..]);
  }

  lemma AtPosition(s: string, t: nat)
    requires t < |s|
    ensures s == s[..t] + [s[t]] + s[t + 1..]
    ensures RemoveAt(s, t)[..t] == s[..t] && RemoveAt(s, t)[t..] == s[t + 1..]
  {
  }

  /**
    signal_name_to_dbus: the loop edits the copy in place until no dash is left. `len` is where the
    returned string ends.
   */
  method SignalNameToDbus(s: string) returns (ret: array<char>, len: nat)
    requires '\0' !in s
    ensures fresh(ret) && HoldsString(ret, len, SignalName(s))
    ensures exists pos :: IsSignalName(s, 0, ret[..len], pos)
    ensures '-' !in ret[..len]
  {
    ret, len := CopyRaised(s);
    len := RemoveDashes(ret, len);
    SignalNameMeaning(s);
  }

  /** The loop: it shortens the string in place until there is no dash left. */
  method RemoveDashes(buf: array<char>, n: nat) returns (len: nat)
    requires n < buf.Length && buf[n] == '\0'
    modifies buf
    ensures HoldsString(buf, len, Compact(old(buf[..n]), false)) && '-' !in buf[..len]
  {
    len := n;
    var t := FindDash(buf, len);
    while t < len
      invariant 0 <= t <= len < buf.Length && buf[len] == '\0'
      invariant Compact(buf[..len], false) == Compact(old(buf[..n]), false)
      invariant '-' !in buf[..t] && (t < len ==> buf[t] == '-')
      decreases len
    {
      assert buf[..len][..t] == buf[..t];
      DashRemoved(buf[..len], t);
      RemoveDash(buf, t, len);
      len := len - 1;
      t := FindDash(buf, len);
    }
    CompactDashless(buf[..len]);
  }

  /** The copy the loop works on, its first character raised. */
  method CopyRaised(s: string) returns (ret: array<char>, len: nat)
    requires '\0' !in s
    ensures fresh(ret) && len == |s| < ret.Length && ret[len] == '\0'
    ensures Compact(ret[..len], false) == SignalName(s)
  {
    ret := new char[|s| + 1](i requires 0 <= i => if i < |s| then s[i] else '\0');
    len := |s|;
    ret[0] := Upper(ret[0]);
    RaiseFirst(s);
    assert ret[..len] == RaiseHead(s);
  }

  // ---------------------------------------------------------------- ensure_proper_format

  /** One pass: a dash or a colon raises the next character, whatever that is; colons stay. */
  function Format(s: string, needUpper: bool): string {
    if s == [] then []
    else if needUpper then [Upper(s[0])] + Format(s[1..], false)
    else if s[0] == '-' then Format(s[1..], true)
    else if s[0] == ':' then [':'] + Format(s[1..], true)
    else [s[0]] + Format(s[1..], false)
  }

  function ProperFormat(s: string): string {
    Format(s, true)
  }

  /** The one-pass converter is about to raise the character at `i`. */
  predicate Armed(s: string, i: nat)
    requires i <= |s|
  {
    i == 0 || (!Armed(s, i - 1) && (s[i - 1] == '-' || s[i - 1] == ':'))
  }

  /** `ret` holds what stands at the indices `pos`: characters about to be raised, raised, and others but dashes. */
  ghost predicate IsProperFormat(s: string, from: nat, ret: string, pos: seq<nat>) {
    && IsIndexList(pos, from, |s|) && |ret| == |pos|
    && (forall i :: from <= i < |s| ==> (i in pos <==> Armed(s, i) || s[i] != '-'))
    && (forall k :: 0 <= k < |pos| ==> ret[k] == if Armed(s, pos[k]) then Upper(s[pos[k]]) else s[pos[k]])
  }

  lemma {:induction false} ProperFormatExact(s: string, from: nat) returns (pos: seq<nat>)
    requires from <= |s|
    ensures IsProperFormat(s, from, Format(s[from..], Armed(s, from)), pos)
    decreases |s| - from
  {
    if from == |s| {
      pos := [];
    } else {
      assert s[from..][0] == s[from] && s[from..][1..] == s[from + 1..];
      pos := ProperFormatExact(s, from + 1);
      if Armed(s, from) || s[from] != '-' {
        ProperFormatCons(s, from, Format(s[from + 1..], Armed(s, from + 1)), pos);
        pos := [from] + pos;
      }
    }
  }

  lemma ProperFormatCons(s: string, from: nat, ret: string, pos: seq<nat>)
    requires from < |s| && (Armed(s, from) || s[from] != '-') && IsProperFormat(s, from + 1, ret, pos)
    ensures IsProperFormat(s, from, [if Armed(s, from) then Upper(s[from]) else s[from]] + ret, [from] + pos)
  {
    IndexCons(pos, from, |s|);
  }

  lemma ProperFormatMeaning(s: string)
    ensures exists pos :: IsProperFormat(s, 0, ProperFormat(s), pos)
  {
    var pos := ProperFormatExact(s, 0);
    assert s[0..] == s;
    assert IsProperFormat(s, 0, ProperFormat(s), pos);
  }

  /** What one character adds to the result, and how the rest is read. */
  lemma FormatStep(ret: string, s: string, needUpper: bool)
    requires s != []
    ensures ret + Format(s, needUpper) ==
            if needUpper then (ret + [Upper(s[0])]) + Format(s[1..], false)
            else if s[0] == '-' then ret + Format(s[1..], true)
            else (ret + [s[0]]) + Format(s[1..], s[0] == ':')
  {
  }

  method EnsureProperFormat(name: string) returns (ret: string)
    ensures ret == ProperFormat(name)
    ensures exists pos :: IsProperFormat(name, 0, ret, pos)
    ensures |ret| <= |name|
  {
    ret := "";
    var needUpper, i := true, 0;
    while i < |name|
      invariant 0 <= i <= |name| && |ret| <= i
      invariant ret + Format(name[i..], needUpper) == ProperFormat(name)
    {
      var c := name[i];
      assert name[i..][0] == c && name[i..][1..] == name[i + 1..];
      FormatStep(ret, name[i..], needUpper);
      if needUpper {
        ret := ret + [Upper(c)];
        needUpper := false;
      } else if c == '-' {
        needUpper := true;
      } else if c == ':' {
        needUpper := true;
        ret := ret + [c];
      } else {
        ret := ret + [c];
      }
      i := i + 1;
    }
    ProperFormatMeaning(name);
  }

  // ---------------------------------------------------------------- agreement

  /**
    Where the converters part ways: a dash that would be raised instead of removed, or a letter raised
    only because a colon stands before it.
   */
  predicate NamesAgree(s: string) {
    forall i :: 0 <= i < |s| && Armed(s, i) ==>
      s[i] != '-' && (i > 0 && s[i - 1] == ':' ==> Upper(s[i]) == s[i])
  }

  /** The same condition, read along with both converters. */
  predicate AgreeFrom(s: string, up: bool, needUpper: bool) {
    s == [] ||
    if needUpper then s[0] != '-' && (up || Upper(s[0]) == s[0]) && AgreeFrom(s[1..], false, false)
    else AgreeFrom(s[1..], s[0] == '-', s[0] == '-' || s[0] == ':')
  }

  lemma {:induction false} AgreeFromIff(s: string, up: bool, needUpper: bool)
    requires up ==> needUpper
    ensures Compact(s, up) == Format(s, needUpper) <==> AgreeFrom(s, up, needUpper)
  {
    if s != [] {
      CompactNoDash(s, up);
      if needUpper {
        if s[0] != '-' {
          AgreeFromIff(s[1..], false, false);
          SameHead(Compact(s[1..], false), Format(s[1..], false));
        } else {
          assert Format(s, needUpper)[0] == '-';
        }
      } else {
        AgreeFromIff(s[1..], s[0] == '-', s[0] == '-' || s[0] == ':');
        SameHead(Compact(s[1..], false), Format(s[1..], s[0] == ':'));
      }
    }
  }

  lemma SameHead(a: string, b: string)
    ensures forall c, d :: [c] + a == [d] + b <==> c == d && a == b
  {
    forall c, d | [c] + a == [d] + b ensures c == d && a == b {
      assert ([c] + a)[0] == c && ([d] + b)[0] == d;
      assert ([c] + a)[1..] == a && ([d] + b)[1..] == b;
    }
  }

  lemma {:induction false} AgreeFromPosition(s: string, k: nat)
    requires k <= |s|
    ensures AgreeFrom(s[k..], Armed(s, k) && (k == 0 || s[k - 1] == '-'), Armed(s, k)) <==>
            forall i :: k <= i < |s| && Armed(s, i) ==>
              s[i] != '-' && (i > 0 && s[i - 1] == ':' ==> Upper(s[i]) == s[i])
    decreases |s| - k
  {
    if k < |s| {
      AgreeFromPosition(s, k + 1);
      assert s[k..][1..] == s[k + 1..] && s[k..][0] == s[k];
    }
  }

  /** The filter and the emitted signal use the same name exactly when the condition holds. */
  lemma NamesAgreeIff(s: string)
    ensures SignalName(s) == ProperFormat(s) <==> NamesAgree(s)
  {
    AgreeFromIff(s, true, true);
    AgreeFromPosition(s, 0);
    assert s[0..] == s;
  }

  /** In particular on every name with no leading dash, no two dashes together and no colon. */
  lemma CleanNamesAgree(s: string)
    requires s != [] ==> s[0] != '-'
    requires forall i :: 0 < i < |s| ==> !(s[i - 1] == '-' && s[i] == '-')
    requires ':' !in s
    ensures SignalName(s) == ProperFormat(s)
  {
    forall i | 0 <= i < |s| && Armed(s, i)
      ensures s[i] != '-' && (i > 0 && s[i - 1] == ':' ==> Upper(s[i]) == s[i])
    {
      assert i > 0 ==> s[i - 1] in s;
    }
    NamesAgreeIff(s);
  }

  /** They do differ: a leading dash is removed by the one and kept by the other. */
  lemma ConvertersDiffer()
    ensures SignalName("-") == "" && ProperFormat("-") == "-"
  {
    assert "-"[1..] == "";
  }

  // ---------------------------------------------------------------- the documented form

  /** A word of the names that the converters are documented for. */
  predicate IsWord(w: string) {
    w != [] && '-' !in w && ':' !in w
  }

  function Dashed(words: seq<string>): string {
    if words == [] then []
    else if |words| == 1 then words[0]
    else words[0] + "-" + Dashed(words[1..])
  }

  function Raised(words: seq<string>): string {
    if words == [] then [] else RaiseHead(words[0]) + Raised(words[1..])
  }

  lemma {:induction false} PlainPrefix(w: string, rest: string)
    requires '-' !in w && ':' !in w
    ensures Format(w + rest, false) == w + Format(rest, false)
    ensures Compact(w + rest, false) == w + Compact(rest, false)
  {
    if w == [] {
      assert w + rest == rest;
    } else {
      assert (w + rest)[1..] == w[1..] + rest;
      PlainPrefix(w[1..], rest);
    }
  }

  lemma RaisedPrefix(w: string, rest: string)
    requires IsWord(w)
    ensures Format(w + rest, true) == RaiseHead(w) + Format(rest, false)
    ensures Compact(w + rest, true) == RaiseHead(w) + Compact(rest, false)
  {
    var c, tail := w[0], w[1..];
    assert c != '-' && (w + rest)[0] == c;
    assert (w + rest)[1..] == tail + rest;
    PlainPrefix(tail, rest);
    ConsConcat(Upper(c), tail, Format(rest, false));
    ConsConcat(Upper(c), tail, Compact(rest, false));
  }

  lemma ConsConcat(c: char, a: string, b: string)
    ensures [c] + (a + b) == ([c] + a) + b
  {
  }

  /** Names of the documented form: both converters join the words, each with its first letter raised. */
  lemma {:induction false} WordsJoined(words: seq<string>)
    requires forall w :: w in words ==> IsWord(w)
    ensures SignalName(Dashed(words)) == Raised(words) && ProperFormat(Dashed(words)) == Raised(words)
  {
    if words != [] {
      var rest := Dashed(words[1..]);
      WordsJoined(words[1..]);
      if |words| == 1 {
        RaisedPrefix(words[0], "");
        assert words[0] + "" == words[0];
      } else {
        RaisedPrefix(words[0], "-" + rest);
        assert words[0] + ("-" + rest) == words[0] + "-" + rest;
        assert ("-" + rest)[1..] == rest;
      }
    }
  }

  lemma TwoWordsJoined(s: string, a: string, b: string, name: string)
    requires IsWord(a) && IsWord(b) && s == a + "-" + b && name == RaiseHead(a) + RaiseHead(b)
    ensures SignalName(s) == name && ProperFormat(s) == name
  {
    var words := [a, b];
    assert words[1..] == [b] && Dashed(words[1..]) == b;
    assert words[1..][1..] == [] && Raised(words[1..]) == RaiseHead(b) + [] == RaiseHead(b);
    assert Dashed(words) == s;
    WordsJoined(words);
  }

  lemma WordBeforeDash(w: string, later: string)
    requires IsWord(w)
    ensures ProperFormat(w + ("-" + later)) == RaiseHead(w) + ProperFormat(later)
  {
    RaisedPrefix(w, "-" + later);
    assert ("-" + later)[1..] == later;
  }

  lemma Regroup(a: string, b: string, c: string)
    ensures a + (b + c) == (a + b) + c
  {
  }

  lemma DashedBefore(words: seq<string>, tail: string)
    requires |words| > 1
    ensures Dashed(words) + tail == words[0] + ("-" + (Dashed(words[1..]) + tail))
  {
  }

  /** Whatever comes after the words is read by itself. */
  lemma {:induction false} WordsBefore(words: seq<string>, tail: string)
    requires words != [] && forall w :: w in words ==> IsWord(w)
    ensures ProperFormat(Dashed(words) + tail) == Raised(words) + Format(tail, false)
  {
    if |words| == 1 {
      RaisedPrefix(words[0], tail);
      assert Raised(words) == RaiseHead(words[0]) + Raised(words[1..]) == RaiseHead(words[0]);
    } else {
      WordsBefore(words[1..], tail);
      WordBeforeDash(words[0], Dashed(words[1..]) + tail);
      DashedBefore(words, tail);
      Regroup(RaiseHead(words[0]), Raised(words[1..]), Format(tail, false));
    }
  }

  lemma ColonStays(rest: string)
    ensures Format(":" + rest, false) == ":" + Format(rest, true)
  {
    assert (":" + rest)[1..] == rest;
  }

  lemma {:induction false} RaisedHasNoColon(words: seq<string>)
    requires forall w :: w in words ==> IsWord(w)
    ensures ':' !in Raised(words)
  {
    if words != [] {
      RaisedHasNoColon(words[1..]);
      assert IsWord(words[0]);
      assert forall c :: c in RaiseHead(words[0]) ==> c == Upper(words[0][0]) || c in words[0];
    }
  }

  /** A signal name never holds a dash, which D-Bus does not allow in member names. */
  lemma SignalNameHasNoDash(s: string)
    ensures '-' !in SignalName(s)
  {
    CompactNoDash(s, true);
  }
}
